/**
 The lock-free waker cell `AtomicPromiseWaker` and the poll protocol around it,
 as a state machine over its atomic steps: one poller that registers a waker,
 re-checks its condition and parks, and any number of threads that each raise a
 condition and then call `wake()`.

 The main theorem is `NoLostWake`: a poller that parked is never left asleep
 once a condition was raised and the wake call of whoever raised it is over.
 */
module WakerCell {

  /** The two bits of `m_state`. */
  datatype Bits = Waiting | Registering | Waking | RegisteringWaking

  type Waker = nat
  type Tid = nat

  datatype Slot = Empty | Holds(waker: Waker)

  /**
   Where the poller stands. `w` is the waker the current poll was given and
   `mark` the length of the fire log when that poll began to register.
   */
  datatype Poller =
    | Parked(w: Waker, mark: nat)       // last poll returned none
    | Idle                              // not polled yet, or last poll returned some
    | Checking(w: Waker)                // before the first look at the condition
    | Claiming(w: Waker)                // before the CAS of register_by_ref
    | Writing(w: Waker, mark: nat)      // owns REGISTERING, before m_waker = w
    | Releasing(w: Waker, mark: nat)    // before the exchange back to WAITING
    | FiringSlot(w: Waker, mark: nat)   // saw REGISTERING|WAKING: fires m_waker itself
    | FiringSelf(w: Waker, mark: nat)   // CAS saw WAKING: fires w itself
    | Rechecking(w: Waker, mark: nat)   // before the second look at the condition
    | SelfWaking                        // some: before its own wake()
    | SelfOwning                        // some: its wake() owns the cell
    | SelfFired                         // some: before its wake() stores WAITING
    | Taking                            // some: before the CAS of take_waker
    | Clearing                          // some: take_waker owns REGISTERING
    | TakeDone                          // some: before take_waker stores WAITING

  /** Where a waking thread stands inside "raise the condition; wake()". */
  datatype Thread = Quiet | Raised | Owning | Fired

  datatype State = State(
    bits: Bits,
    slot: Slot,
    pending: nat,                // raised conditions nobody has consumed yet
    log: seq<Waker>,             // every waker fired so far, in order
    poller: Poller,
    threads: map<Tid, Thread>)

  function ThreadOf(s: State, t: Tid): Thread {
    if t in s.threads then s.threads[t] else Quiet
  }

  // ---------- Steps of a waking thread ----------

  function FireSlot(s: State): seq<Waker> {
    if s.slot.Holds? then s.log + [s.slot.waker] else s.log
  }

  /** The thread raises a condition, or starts a spurious wake that raises none. */
  ghost predicate RaiseStep(s: State, s': State, t: Tid, spurious: bool) {
    && ThreadOf(s, t).Quiet?
    && s' == s.(threads := s.threads[t := Raised], pending := if spurious then s.pending else s.pending + 1)
  }

  /** `fetch_or(WAKING)`: what the cell becomes and whether the caller now owns it. */
  function Or(b: Bits): (Bits, bool) {
    match b
    case Waiting => (Waking, true)
    case Registering => (RegisteringWaking, false)
    case _ => (b, false)
  }

  ghost predicate OrStep(s: State, s': State, t: Tid) {
    && ThreadOf(s, t).Raised?
    && s' == s.(bits := Or(s.bits).0, threads := s.threads[t := if Or(s.bits).1 then Owning else Quiet])
  }

  ghost predicate FireStep(s: State, s': State, t: Tid) {
    && ThreadOf(s, t).Owning?
    && s' == s.(log := FireSlot(s), threads := s.threads[t := Fired])
  }

  ghost predicate StoreStep(s: State, s': State, t: Tid) {
    && ThreadOf(s, t).Fired?
    && s' == s.(bits := Waiting, threads := s.threads[t := Quiet])
  }

  ghost predicate ThreadStep(s: State, s': State, t: Tid) {
    || (exists spurious :: RaiseStep(s, s', t, spurious))
    || OrStep(s, s', t) || FireStep(s, s', t) || StoreStep(s, s', t)
  }

  // ---------- Steps of the poller ----------

  ghost predicate BeginPoll(s: State, s': State, w: Waker) {
    && (s.poller.Idle? || s.poller.Parked?)
    && s' == s.(poller := Checking(w))
  }

  /** First look at the condition; a poll that finds it may consume any part of it. */
  ghost predicate CheckStep(s: State, s': State, left: nat) {
    && s.poller.Checking?
    && left <= s.pending
    && s' == if s.pending > 0 then s.(poller := Idle, pending := left)
             else s.(poller := Claiming(s.poller.w))
  }

  ghost predicate ClaimStep(s: State, s': State) {
    && s.poller.Claiming?
    && var w, mark := s.poller.w, |s.log|;
    s' == match s.bits
          case Waiting => s.(bits := Registering, poller := Writing(w, mark))
          case Waking => s.(poller := FiringSelf(w, mark))
          case _ => s.(poller := Rechecking(w, mark))
  }

  ghost predicate WriteStep(s: State, s': State) {
    && s.poller.Writing?
    && s' == s.(slot := Holds(s.poller.w), poller := Releasing(s.poller.w, s.poller.mark))
  }

  ghost predicate ReleaseStep(s: State, s': State) {
    && s.poller.Releasing?
    && var w, mark := s.poller.w, s.poller.mark;
    s' == s.(bits := Waiting,
             poller := if s.bits.RegisteringWaking? then FiringSlot(w, mark) else Rechecking(w, mark))
  }

  ghost predicate RegistrantFires(s: State, s': State) {
    && (s.poller.FiringSlot? || s.poller.FiringSelf?)
    && var w, mark := s.poller.w, s.poller.mark;
    s' == s.(log := if s.poller.FiringSlot? then FireSlot(s) else s.log + [w], poller := Rechecking(w, mark))
  }

  /** Second look: park, or answer through `wake()` (poll_state) or `take_waker()`. */
  ghost predicate RecheckStep(s: State, s': State, left: nat, take: bool) {
    && s.poller.Rechecking?
    && left <= s.pending
    && s' == if s.pending == 0 then s.(poller := Parked(s.poller.w, s.poller.mark))
             else s.(poller := if take then Taking else SelfWaking, pending := left)
  }

  ghost predicate SelfWakeStep(s: State, s': State) {
    match s.poller
    case SelfWaking => s' == s.(bits := Or(s.bits).0, poller := if Or(s.bits).1 then SelfOwning else Idle)
    case SelfOwning => s' == s.(log := FireSlot(s), poller := SelfFired)
    case SelfFired => s' == s.(bits := Waiting, poller := Idle)
    case _ => false
  }

  ghost predicate TakeStep(s: State, s': State) {
    match s.poller
    case Taking => s' == if s.bits.Waiting? then s.(bits := Registering, poller := Clearing)
                         else s.(poller := Idle)
    case Clearing => s' == s.(slot := Empty, poller := TakeDone)
    case TakeDone => s' == s.(bits := Waiting, poller := Idle)
    case _ => false
  }

  ghost predicate PollerStep(s: State, s': State) {
    || (exists w :: BeginPoll(s, s', w))
    || (exists left :: CheckStep(s, s', left))
    || ClaimStep(s, s') || WriteStep(s, s') || ReleaseStep(s, s') || RegistrantFires(s, s')
    || (exists left, take :: RecheckStep(s, s', left, take))
    || SelfWakeStep(s, s') || TakeStep(s, s')
  }

  // ---------- Runs ----------

  ghost predicate Init(s: State) {
    s == State(Waiting, Empty, 0, [], Idle, map[])
  }

  /** One atomic step of anybody, or a step of the surroundings that leaves the cell alone. */
  ghost predicate Next(s: State, s': State) {
    PollerStep(s, s') || (exists t :: ThreadStep(s, s', t)) || s' == s
  }

  ghost predicate StepAt(run: seq<State>, i: nat)
    requires i + 1 < |run|
  {
    Next(run[i], run[i + 1])
  }

  ghost predicate IsRun(run: seq<State>) {
    && |run| > 0
    && Init(run[0])
    && forall i: nat :: i + 1 < |run| ==> StepAt(run, i)
  }

  // ---------- The invariant ----------

  predicate Owns(t: Thread) { t.Owning? || t.Fired? }

  predicate PollerOwns(p: Poller) { p.SelfOwning? || p.SelfFired? }

  /** The poller holds the REGISTERING bit. */
  predicate PollerRegisters(p: Poller) { p.Writing? || p.Releasing? || p.Clearing? || p.TakeDone? }

  ghost predicate SomeOwner(threads: map<Tid, Thread>) {
    exists t :: t in threads && Owns(threads[t])
  }

  ghost predicate OneOwnerAmong(threads: map<Tid, Thread>) {
    forall t, u :: t in threads && u in threads && Owns(threads[t]) && Owns(threads[u]) ==> t == u
  }

  /** Ownership of the cell is exclusive and agrees with its two bits. */
  ghost predicate Exclusive(s: State) {
    && OneOwnerAmong(s.threads)
    && (s.bits.Waking? <==> SomeOwner(s.threads) || PollerOwns(s.poller))
    && !(SomeOwner(s.threads) && PollerOwns(s.poller))
    && (s.bits.Registering? || s.bits.RegisteringWaking? <==> PollerRegisters(s.poller))
  }

  /** The waker of this poll has been fired since the poll began to register. */
  predicate FiredSince(s: State, w: Waker, mark: nat) {
    mark <= |s.log| && w in s.log[mark..]
  }

  /** The waker of this poll is stored and nobody who owns the cell has passed it by. */
  ghost predicate Armed(s: State, w: Waker) {
    && s.slot == Holds(w)
    && forall t :: t in s.threads ==> !s.threads[t].Fired?
  }

  /** Some thread that raised a condition has not yet reached the stored waker. */
  ghost predicate WakeUnderway(s: State) {
    exists t :: t in s.threads && (s.threads[t].Raised? || s.threads[t].Owning?)
  }

  ghost predicate Delivery(s: State) {
    match s.poller
    case Parked(w, mark) =>
      mark <= |s.log| && (FiredSince(s, w, mark) || (Armed(s, w) && (s.pending > 0 ==> WakeUnderway(s))))
    case Rechecking(w, mark) => mark <= |s.log| && (FiredSince(s, w, mark) || Armed(s, w))
    case FiringSlot(w, mark) => s.slot == Holds(w) && mark <= |s.log|
    case FiringSelf(w, mark) => mark <= |s.log|
    case Writing(w, mark) => mark <= |s.log|
    case Releasing(w, mark) => s.slot == Holds(w) && mark <= |s.log|
    case _ => true
  }

  ghost predicate Inv(s: State) {
    Exclusive(s) && Delivery(s)
  }

  lemma ThreadStepKeepsExclusive(s: State, s': State, t: Tid)
    requires Exclusive(s) && ThreadStep(s, s', t)
    ensures Exclusive(s')
  {
    assert forall u :: u in s'.threads && u != t ==> u in s.threads && s'.threads[u] == s.threads[u];
    if Owns(s'.threads[t]) {
      assert SomeOwner(s'.threads);
    } else if !Owns(ThreadOf(s, t)) && SomeOwner(s.threads) {
      var u :| u in s.threads && Owns(s.threads[u]);
      assert Owns(s'.threads[u]);
    }
  }

  lemma ThreadStepKeepsDelivery(s: State, s': State, t: Tid)
    requires Inv(s) && ThreadStep(s, s', t)
    ensures Delivery(s')
  {
    assert forall u :: u in s'.threads && u != t ==> u in s.threads && s'.threads[u] == s.threads[u];
    assert s.log <= s'.log;
    if s.poller.Parked? || s.poller.Rechecking? {
      var w, mark := s.poller.w, s.poller.mark;
      if FiredSince(s, w, mark) {
        LogGrows(s, s', w, mark);
      } else if FireStep(s, s', t) {
        assert s'.log == s.log + [w];
        assert s'.log[|s.log|] == w;
      } else if s.poller.Parked? && s'.pending > 0 {
        if OrStep(s, s', t) && !s.bits.Waiting? {
          OwnerUnderway(s, s', t);
        } else if (exists sp :: RaiseStep(s, s', t, sp)) || (OrStep(s, s', t) && s.bits.Waiting?) {
          assert s'.threads[t].Raised? || s'.threads[t].Owning?;
        }
      }
    }
  }

  lemma LogGrows(s: State, s': State, w: Waker, mark: nat)
    requires FiredSince(s, w, mark) && s.log <= s'.log
    ensures FiredSince(s', w, mark)
  {
    var i :| mark <= i < |s.log| && s.log[i] == w;
    assert s'.log[i] == w;
    assert w == s'.log[mark..][i - mark];
  }

  /** If a wake finds the cell taken, whoever took it is still on the way to the slot. */
  lemma OwnerUnderway(s: State, s': State, t: Tid)
    requires Inv(s) && OrStep(s, s', t) && !s.bits.Waiting? && s.poller.Parked?
    requires Armed(s, s.poller.w)
    ensures WakeUnderway(s')
  {
    assert s.bits.Waking?;
    var u :| u in s.threads && Owns(s.threads[u]);
    assert s'.threads[u].Owning?;
  }

  lemma PollerStepKeepsExclusive(s: State, s': State)
    requires Exclusive(s) && PollerStep(s, s')
    ensures Exclusive(s')
  {
  }

  lemma PollerStepKeepsDelivery(s: State, s': State)
    requires Inv(s) && PollerStep(s, s')
    ensures Delivery(s')
  {
    if RegistrantFires(s, s') {
      assert s'.log == s.log + [s.poller.w];
      assert s'.log[s.poller.mark..][|s.log| - s.poller.mark] == s.poller.w;
    }
  }

  lemma NextKeepsInv(s: State, s': State)
    requires Inv(s) && Next(s, s')
    ensures Inv(s')
  {
    if PollerStep(s, s') {
      PollerStepKeepsExclusive(s, s');
      PollerStepKeepsDelivery(s, s');
    } else if s' != s {
      var t :| ThreadStep(s, s', t);
      ThreadStepKeepsExclusive(s, s', t);
      ThreadStepKeepsDelivery(s, s', t);
    }
  }

  lemma {:induction false} RunKeepsInv(run: seq<State>, k: nat)
    requires IsRun(run) && k < |run|
    ensures Inv(run[k])
  {
    if k > 0 {
      RunKeepsInv(run, k - 1);
      assert StepAt(run, k - 1);
      NextKeepsInv(run[k - 1], run[k]);
    }
  }

  // ---------- What callers rely on ----------

  /** No wake call is in progress: every thread is back outside `wake()`. */
  ghost predicate AllQuiet(s: State) {
    forall t :: ThreadOf(s, t).Quiet?
  }

  /**
   No lost wake. In every interleaving: when the last poll returned none, a
   condition is pending (so it was raised after that poll looked) and no wake call
   is still running, the waker given to that poll has been fired since it registered.
   */
  lemma NoLostWake(run: seq<State>, k: nat)
    requires IsRun(run) && k < |run|
    requires run[k].poller.Parked? && run[k].pending > 0 && AllQuiet(run[k])
    ensures FiredSince(run[k], run[k].poller.w, run[k].poller.mark)
  {
    RunKeepsInv(run, k);
    forall t | t in run[k].threads ensures run[k].threads[t].Quiet? {
      assert ThreadOf(run[k], t).Quiet?;
    }
  }

  lemma OnlyPollerWritesSlot(s: State, s': State)
    requires Next(s, s') && s'.slot != s.slot
    ensures PollerRegisters(s.poller)
  {
  }

  /**
   `m_waker` is never written while a waking thread owns the cell, so the
   unsynchronised slot is free of races.
   */
  lemma SlotWritesAreExclusive(run: seq<State>, k: nat, t: Tid)
    requires IsRun(run) && 0 < k < |run|
    requires run[k].slot != run[k - 1].slot
    ensures !Owns(ThreadOf(run[k - 1], t))
  {
    RunKeepsInv(run, k - 1);
    var s := run[k - 1];
    assert StepAt(run, k - 1);
    OnlyPollerWritesSlot(s, run[k]);
    assert !SomeOwner(s.threads);
  }

  /** At most one caller of `wake()` holds the cell at any time. */
  lemma OneOwner(run: seq<State>, k: nat, t: Tid, u: Tid)
    requires IsRun(run) && k < |run|
    requires Owns(ThreadOf(run[k], t)) && Owns(ThreadOf(run[k], u))
    ensures t == u && !PollerOwns(run[k].poller)
  {
    RunKeepsInv(run, k);
    assert SomeOwner(run[k].threads);
  }
}
