/**
 The driver of `xpp::spawn`: a `SpawnState` polled by steps posted to the event loop,
 kept alive by reference counts, and a shared `WakeState` kept alive by the copies of
 its waker. Wakes may come late, twice, from the loop thread or from any other, and
 copies of the waker may be made and dropped at any time; polls do not nest.

 The order of posted items does not matter for what is claimed, so the model counts
 them. `refs` is exact at every step, the state is deleted once and never touched
 afterwards, the node is not polled after it answered, and the handle is resolved once.
 */
module Spawn {

  /** Where the loop thread stands. */
  datatype Pc =
    | Idle
    | Entered            // spawn_step popped, before it reads `done`
    | Polling            // inside node->poll, with its own copy of the waker
    | GotSome            // before done = true
    | Resolving          // before the resolver is used
    | Resetting          // before waker.reset()
    | DropContext        // before the context's copy of the waker goes
    | Leaving            // before st->release()
    | Token              // on_wake_owned popped, before retain
    | TokenRetained      // before its post
    | TokenDone          // before delete tok

  datatype State = State(
    refs: int,            // SpawnState.refs
    deleted: nat,
    done: bool,
    somes: nat,           // polls that answered
    latePolls: nat,       // polls after one that answered
    resolves: nat,
    strong: int,          // count of the Arc<WakeState>
    alive: bool,          // the WakeState exists
    own: bool,            // st->waker is set
    copies: nat,          // waker copies held outside
    retained: nat,        // do_wake calls between retain and post
    posting: nat,         // wakes from other threads between making their token and posting it
    steps: nat,           // posted spawn_step
    tokens: nat,          // posted on_wake_owned
    owed: nat,            // release calls of ~WakeState and of failed posts that are still to run
    pc: Pc)

  // ---------- Reference counting ----------

  /** Some holder gives up its copy of the waker; the last one destroys the WakeState, which releases the state. */
  function DropCopy(s: State): State {
    if s.strong == 1 then s.(strong := 0, alive := false, owed := s.owed + 1) else s.(strong := s.strong - 1)
  }

  /** release(): the last reference deletes the state, and with it the waker if it is still set. */
  function Release(s: State): State {
    if s.refs != 1 then s.(refs := s.refs - 1)
    else if s.own then DropCopy(s.(refs := 0, deleted := s.deleted + 1, own := false))
    else s.(refs := 0, deleted := s.deleted + 1)
  }

  /** do_wake posts spawn_step, or releases again when the post fails. */
  function Posted(s: State, ok: bool): State {
    if ok then s.(steps := s.steps + 1) else s.(owed := s.owed + 1)
  }

  /** No call of wake() is under way. Otherwise the copy it is called on, be it the context's, is still there. */
  predicate NoWakes(s: State) {
    s.retained == 0 && s.posting == 0
  }

  // ---------- Steps of the loop thread ----------

  predicate PollBegins(s: State, s': State) {
    s' == s.(strong := s.strong + 1, pc := Polling, latePolls := if s.somes > 0 then s.latePolls + 1 else s.latePolls)
  }

  predicate LoopStep(s: State, s': State, ok: bool) {
    match s.pc
    case Idle => (s.steps > 0 && s' == s.(steps := s.steps - 1, pc := Entered))
              || (s.tokens > 0 && s' == s.(tokens := s.tokens - 1, pc := Token))
    case Entered => if s.done then s' == s.(pc := Leaving) else PollBegins(s, s')
    case Polling => s' == if ok then s.(somes := s.somes + 1, pc := GotSome) else s.(pc := DropContext)
    case GotSome => s' == s.(done := true, pc := Resolving)
    case Resolving => s' == s.(resolves := s.resolves + 1, pc := Resetting)
    case Resetting => s' == DropCopy(s).(own := false, pc := DropContext)
    case DropContext => (s.copies > 0 || NoWakes(s)) && s' == DropCopy(s).(pc := Leaving)
    case Leaving => s' == Release(s).(pc := Idle)
    case Token => s' == s.(refs := s.refs + 1, pc := TokenRetained)
    case TokenRetained => s' == Posted(s, ok).(pc := TokenDone)
    case TokenDone => s' == DropCopy(s).(pc := Idle)
  }

  // ---------- Steps of everybody who holds a copy ----------

  predicate InPoll(pc: Pc) {
    pc.Polling? || pc.GotSome? || pc.Resolving? || pc.Resetting? || pc.DropContext?
  }

  predicate CopyStep(s: State, s': State) {
    || (s.copies > 0 && s' == s.(copies := s.copies + 1, strong := s.strong + 1))
    || (s.pc.Polling? && s' == s.(copies := s.copies + 1, strong := s.strong + 1))
    || (s.copies > 0 && (s.copies > 1 || InPoll(s.pc) || NoWakes(s)) && s' == DropCopy(s).(copies := s.copies - 1))
  }

  /** wake() begins, on a copy held outside or on the context's. */
  predicate WakeBegins(s: State, s': State) {
    && (s.copies > 0 || s.pc.Polling?)
    && (s' == s.(retained := s.retained + 1, refs := s.refs + 1) || s' == s.(posting := s.posting + 1, strong := s.strong + 1))
  }

  /** wake() on the loop thread: retain, then post. */
  predicate WakeHereStep(s: State, s': State, ok: bool) {
    || (WakeBegins(s, s') && s'.retained > s.retained)
    || (s.retained > 0 && s' == Posted(s, ok).(retained := s.retained - 1))
  }

  /** wake() on another thread: a token with its own copy is made and posted. */
  predicate WakeAwayStep(s: State, s': State, ok: bool) {
    || (WakeBegins(s, s') && s'.posting > s.posting)
    || (s.posting > 0 && s' == if ok then s.(posting := s.posting - 1, tokens := s.tokens + 1)
                               else DropCopy(s).(posting := s.posting - 1))
  }

  predicate OwedStep(s: State, s': State) {
    s.owed > 0 && s' == Release(s.(owed := s.owed - 1))
  }

  predicate Step(s: State, s': State, ok: bool) {
    LoopStep(s, s', ok) || CopyStep(s, s') || WakeHereStep(s, s', ok) || WakeAwayStep(s, s', ok) || OwedStep(s, s')
  }

  // ---------- Runs ----------

  /** What spawn_impl leaves behind: one reference for the waker and one for the posted first step. */
  predicate Init(s: State) {
    && s.refs == 2 && s.steps == 1 && s.strong == 1 && s.alive && s.own && !s.done && s.pc.Idle?
    && s.deleted == s.somes == s.latePolls == s.resolves == 0
    && s.copies == s.retained == s.posting == s.tokens == s.owed == 0
  }

  ghost predicate StepAt(run: seq<State>, i: nat)
    requires i + 1 < |run|
  {
    Step(run[i], run[i + 1], true) || Step(run[i], run[i + 1], false)
  }

  ghost predicate IsRun(run: seq<State>) {
    && |run| > 0
    && Init(run[0])
    && forall i: nat :: i + 1 < |run| ==> StepAt(run, i)
  }

  // ---------- The invariant ----------

  function One(b: bool): nat {
    if b then 1 else 0
  }

  predicate InStep(pc: Pc) {
    pc.Entered? || InPoll(pc) || pc.Leaving?
  }

  predicate InToken(pc: Pc) {
    pc.Token? || pc.TokenRetained? || pc.TokenDone?
  }

  /** Every copy of the waker is counted once. */
  predicate CopiesCounted(s: State) {
    && s.strong == One(s.own) + One(InPoll(s.pc)) + s.copies + s.posting + s.tokens + One(InToken(s.pc))
    && (s.alive <==> s.strong > 0)
  }

  /** A call of wake() has the copy it is called on. */
  predicate CopyHeld(s: State) {
    s.copies > 0 || InPoll(s.pc) || NoWakes(s)
  }

  /** One reference while the WakeState lives, one for each posted or running step, one for each call under way. */
  predicate RefsCounted(s: State) {
    && s.refs == One(s.alive) + s.steps + One(InStep(s.pc)) + s.retained + One(s.pc.TokenRetained?) + s.owed
    && s.deleted == One(s.refs == 0)
  }

  /** How far the one completion has come. */
  predicate Progress(s: State) {
    && s.latePolls == 0
    && s.somes == One(s.done || s.pc.GotSome?)
    && s.resolves == One(s.done && !s.pc.Resolving?)
    && (s.own <==> !s.done || s.pc.Resolving? || s.pc.Resetting?)
    && (s.pc.Resolving? || s.pc.Resetting? ==> s.done)
    && (s.pc.GotSome? || s.pc.Polling? ==> !s.done)
  }

  predicate Inv(s: State) {
    CopiesCounted(s) && CopyHeld(s) && RefsCounted(s) && Progress(s)
  }

  lemma LoopKeepsCopies(s: State, s': State, ok: bool)
    requires Inv(s) && LoopStep(s, s', ok)
    ensures CopiesCounted(s')
  {
  }

  lemma LoopKeepsHeld(s: State, s': State, ok: bool)
    requires CopyHeld(s) && LoopStep(s, s', ok)
    ensures CopyHeld(s')
  {
  }

  lemma LoopKeepsRefs(s: State, s': State, ok: bool)
    requires Inv(s) && LoopStep(s, s', ok)
    ensures RefsCounted(s')
  {
  }

  lemma LoopKeepsProgress(s: State, s': State, ok: bool)
    requires Inv(s) && LoopStep(s, s', ok)
    ensures Progress(s')
  {
  }

  lemma CopyKeepsInv(s: State, s': State)
    requires Inv(s) && CopyStep(s, s')
    ensures Inv(s')
  {
  }

  lemma WakeHereKeepsInv(s: State, s': State, ok: bool)
    requires Inv(s) && WakeHereStep(s, s', ok)
    ensures Inv(s')
  {
  }

  lemma WakeAwayKeepsInv(s: State, s': State, ok: bool)
    requires Inv(s) && WakeAwayStep(s, s', ok)
    ensures Inv(s')
  {
  }

  lemma OwedKeepsInv(s: State, s': State)
    requires Inv(s) && OwedStep(s, s')
    ensures Inv(s')
  {
  }

  lemma StepKeepsInv(s: State, s': State, ok: bool)
    requires Inv(s) && Step(s, s', ok)
    ensures Inv(s')
  {
    hide LoopStep, CopyStep, WakeHereStep, WakeAwayStep, OwedStep, CopiesCounted, CopyHeld, RefsCounted, Progress;
    if LoopStep(s, s', ok) {
      LoopKeepsCopies(s, s', ok);
      LoopKeepsHeld(s, s', ok);
      LoopKeepsRefs(s, s', ok);
      LoopKeepsProgress(s, s', ok);
    } else if CopyStep(s, s') {
      CopyKeepsInv(s, s');
    } else if WakeHereStep(s, s', ok) {
      WakeHereKeepsInv(s, s', ok);
    } else if WakeAwayStep(s, s', ok) {
      WakeAwayKeepsInv(s, s', ok);
    } else {
      OwedKeepsInv(s, s');
    }
  }

  lemma InitInv(s: State)
    requires Init(s)
    ensures Inv(s)
  {
    assert !InPoll(s.pc) && !InStep(s.pc) && !InToken(s.pc);
  }

  lemma {:induction false} RunKeepsInv(run: seq<State>, i: nat)
    requires IsRun(run) && i < |run|
    ensures Inv(run[i])
  {
    hide Step, Inv, Init;
    if i == 0 {
      InitInv(run[0]);
    } else {
      RunKeepsInv(run, i - 1);
      assert StepAt(run, i - 1);
      var ok :| Step(run[i - 1], run[i], ok);
      StepKeepsInv(run[i - 1], run[i], ok);
    }
  }

  // ---------- What every run keeps ----------

  /** One reference while the WakeState lives, one for each step posted or running, one for each call under way. */
  lemma RefsAreExact(run: seq<State>, i: nat)
    requires IsRun(run) && i < |run|
    ensures var s := run[i];
            && s.refs == One(s.alive) + s.steps + One(InStep(s.pc)) + s.retained + One(s.pc.TokenRetained?) + s.owed
            && s.deleted == One(s.refs == 0)
  {
    RunKeepsInv(run, i);
  }

  /** The step reads or writes the SpawnState: it runs inside spawn_step, or counts a reference. */
  predicate TouchesState(s: State, s': State) {
    InStep(s.pc) || s'.refs != s.refs || s'.deleted != s.deleted
  }

  /** The step uses the WakeState or one of its copies. */
  predicate TouchesWaker(s: State, s': State) {
    InToken(s.pc) || s'.strong != s.strong || s'.retained != s.retained || s'.posting != s.posting
  }

  /** Nobody touches the state after it is deleted, nor the WakeState after it is gone. */
  lemma NoUseAfterDelete(run: seq<State>, i: nat)
    requires IsRun(run) && i + 1 < |run|
    ensures TouchesState(run[i], run[i + 1]) ==> run[i].deleted == 0
    ensures TouchesWaker(run[i], run[i + 1]) ==> run[i].alive
  {
    RunKeepsInv(run, i);
    assert StepAt(run, i);
    var ok :| Step(run[i], run[i + 1], ok);
    TouchesOnlyLive(run[i], run[i + 1], ok);
  }

  lemma TouchesOnlyLive(s: State, s': State, ok: bool)
    requires Inv(s) && Step(s, s', ok)
    ensures TouchesState(s, s') ==> s.deleted == 0
    ensures TouchesWaker(s, s') ==> s.alive
  {
  }

  /** The node answers at most once and is not polled afterwards; the handle is resolved at most once. */
  lemma CompletesOnce(run: seq<State>, i: nat)
    requires IsRun(run) && i < |run|
    ensures run[i].somes <= 1 && run[i].latePolls == 0
    ensures run[i].resolves <= run[i].somes && (run[i].done && run[i].pc.Idle? ==> run[i].resolves == 1)
  {
    RunKeepsInv(run, i);
  }

  /** Completed, with no copy of the waker left and nothing posted or under way: deleted, and only once. */
  lemma NothingLeaks(run: seq<State>, i: nat)
    requires IsRun(run) && i < |run|
    ensures run[i].deleted <= 1
    ensures var s := run[i];
            s.done && s.pc.Idle? && s.copies + s.retained + s.posting + s.steps + s.tokens + s.owed == 0 ==> s.deleted == 1
  {
    RunKeepsInv(run, i);
  }
}
