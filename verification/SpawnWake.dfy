/**
 A spawned tree and one of its leaves together: the driver of `Spawn`, and the leaf's
 `ResolveState` with its waker cell. The leaf is polled inside a poll of the tree; each time
 its waker is fired a wake of the driver begins; the copy of the waker in the cell is one
 of those the driver counts.

 A tree may suspend without polling a leaf it left pending earlier only if it has given the
 leaf up (`PromiseAsks`); here it does not. Then a leaf that has become Ready is never
 forgotten: `ReadyLeafIsPolled`.
 */
module SpawnWake {
  import Cell = WakerCell
  import Leaf = ResolveState
  import Driver = Spawn

  datatype State<V> = State(
    leaf: Leaf.State<V>,
    driver: Driver.State,
    asked: bool,           // the poll under way has polled the leaf
    lost: nat)             // posts that failed

  predicate AtRest(p: Cell.Poller) {
    p.Idle? || p.Parked?
  }

  // ---------- Steps ----------

  /** What a step of the leaf does to the driver: a fired waker begins a wake, a first stored one is a new copy. */
  predicate Follows<V>(leaf: Leaf.State<V>, leaf': Leaf.State<V>, d: Driver.State, d': Driver.State) {
    if |leaf'.cell.log| > |leaf.cell.log| then Driver.WakeBegins(d, d')
    else if leaf.cell.slot.Empty? && leaf'.cell.slot.Holds? then
      d.pc.Polling? && d' == d.(copies := d.copies + 1, strong := d.strong + 1)
    else d' == d
  }

  ghost predicate ResolverStep<V>(s: State<V>, s': State<V>) {
    && (exists t :: Leaf.ResolverStep(s.leaf, s'.leaf, t))
    && Follows(s.leaf, s'.leaf, s.driver, s'.driver)
    && s' == s.(leaf := s'.leaf, driver := s'.driver)
  }

  /** The leaf is polled on the loop thread, inside a poll of the tree. */
  ghost predicate LeafPollStep<V>(s: State<V>, s': State<V>) {
    && s.driver.pc.Polling? && Leaf.Poll(s.leaf, s'.leaf)
    && (s.asked || s'.leaf.cell.poller.Checking?)
    && Follows(s.leaf, s'.leaf, s.driver, s'.driver)
    && s' == s.(leaf := s'.leaf, driver := s'.driver, asked := true)
  }

  /** A post has failed. */
  predicate Fails(d: Driver.State, d': Driver.State, ok: bool) {
    && !ok
    && ((d.pc.TokenRetained? && d'.pc.TokenDone?) || d'.retained < d.retained || d'.posting < d.posting)
  }

  /** Any other step of the driver; a poll ends when no poll of the leaf is under way, and without an answer only if a parked leaf was polled. */
  ghost predicate DriverStep<V>(s: State<V>, s': State<V>, ok: bool) {
    var d, d', p := s.driver, s'.driver, s.leaf.cell.poller;
    && Driver.Step(d, d', ok)
    && (d.pc.Polling? && !d'.pc.Polling? ==> AtRest(p) && (d'.pc.DropContext? && p.Parked? ==> s.asked))
    && (d'.copies < d.copies && s.leaf.cell.slot.Holds? ==> d'.copies > 0)
    && s' == s.(driver := d', asked := s.asked && d.pc.Polling?, lost := if Fails(d, d', ok) then s.lost + 1 else s.lost)
  }

  ghost predicate Next<V>(s: State<V>, s': State<V>) {
    ResolverStep(s, s') || LeafPollStep(s, s') || DriverStep(s, s', true) || DriverStep(s, s', false)
  }

  ghost predicate Init<V>(s: State<V>) {
    Leaf.Init(s.leaf) && Driver.Init(s.driver) && !s.asked && s.lost == 0
  }

  ghost predicate StepAt<V>(run: seq<State<V>>, i: nat)
    requires i + 1 < |run|
  {
    Next(run[i], run[i + 1])
  }

  ghost predicate IsRun<V>(run: seq<State<V>>) {
    && |run| > 0
    && Init(run[0])
    && forall i: nat :: i + 1 < |run| ==> StepAt(run, i)
  }

  // ---------- The invariant ----------

  /** The poll of the leaf has begun to register, at this length of the fire log. */
  predicate Registered(p: Cell.Poller) {
    p.Parked? || p.Writing? || p.Releasing? || p.FiringSlot? || p.FiringSelf? || p.Rechecking?
  }

  /** Wakes begun, tokens and steps: what will lead to another step, posts succeeding. */
  function InFlight(d: Driver.State): nat {
    d.retained + d.posting + d.tokens + d.steps + if d.pc.Token? || d.pc.TokenRetained? then 1 else 0
  }

  /** A step is running that has still to poll the leaf. */
  predicate WillAsk<V>(s: State<V>) {
    s.leaf.cell.poller.Parked? && (s.driver.pc.Entered? || (s.driver.pc.Polling? && !s.asked))
  }

  /** A waker fired since the leaf registered is on its way, or has arrived, or was lost. */
  predicate OnTheWay<V>(s: State<V>) {
    var p := s.leaf.cell.poller;
    Registered(p) && |s.leaf.cell.log| > p.mark ==>
      InFlight(s.driver) > 0 || WillAsk(s) || s.driver.somes > 0 || s.lost > 0
  }

  ghost predicate Inv<V>(s: State<V>) {
    && Leaf.Inv(s.leaf) && Cell.Inv(s.leaf.cell) && Driver.Inv(s.driver)
    && ((s.driver.pc.Polling? && s.asked) || AtRest(s.leaf.cell.poller))
    && (s.leaf.cell.slot.Holds? ==> s.driver.copies > 0)
    && OnTheWay(s)
  }

  lemma FollowsDriver<V>(leaf: Leaf.State<V>, leaf': Leaf.State<V>, d: Driver.State, d': Driver.State)
    requires Driver.Inv(d) && Follows(leaf, leaf', d, d')
    ensures Driver.Inv(d') && d'.pc == d.pc && d'.copies >= d.copies && d'.somes == d.somes && InFlight(d') >= InFlight(d)
    ensures |leaf'.cell.log| > |leaf.cell.log| ==> InFlight(d') > 0
    ensures leaf'.cell.slot.Holds? && leaf'.cell.log == leaf.cell.log && leaf.cell.slot.Empty? ==> d'.copies > 0
  {
    hide Driver.Inv;
    if |leaf'.cell.log| > |leaf.cell.log| {
      assert Driver.WakeHereStep(d, d', true) || Driver.WakeAwayStep(d, d', true);
      Driver.StepKeepsInv(d, d', true);
    } else if d' != d {
      assert Driver.CopyStep(d, d');
      Driver.StepKeepsInv(d, d', true);
    }
  }

  lemma LeafKeepsInv<V>(s: Leaf.State<V>, s': Leaf.State<V>)
    requires Leaf.Inv(s) && Cell.Inv(s.cell) && Leaf.Next(s, s')
    ensures Leaf.Inv(s') && Cell.Inv(s'.cell)
  {
    Leaf.NextKeepsInv(s, s');
    Leaf.CellStep(s, s');
    Cell.NextKeepsInv(s.cell, s'.cell);
  }

  /** A waking thread leaves the poller and the slot alone. */
  lemma ResolverLeaves<V>(s: Leaf.State<V>, s': Leaf.State<V>, t: Leaf.Tid)
    requires Leaf.ResolverStep(s, s', t)
    ensures s'.cell.poller == s.cell.poller && s'.cell.slot == s.cell.slot && s.cell.log <= s'.cell.log
  {
  }

  lemma ResolverKeepsInv<V>(s: State<V>, s': State<V>)
    requires Inv(s) && ResolverStep(s, s')
    ensures Inv(s')
  {
    hide Leaf.Inv, Cell.Inv, Driver.Inv, Leaf.ResolverStep, Follows, InFlight;
    var t :| Leaf.ResolverStep(s.leaf, s'.leaf, t);
    LeafKeepsInv(s.leaf, s'.leaf);
    ResolverLeaves(s.leaf, s'.leaf, t);
    FollowsDriver(s.leaf, s'.leaf, s.driver, s'.driver);
  }

  /** A step of the poller: it fires or moves on, and begins to register at the end of the log. */
  lemma PollerMoves<V>(s: Leaf.State<V>, s': Leaf.State<V>)
    requires Leaf.Poll(s, s')
    ensures var p, p' := s.cell.poller, s'.cell.poller;
            && s.cell.log <= s'.cell.log && (s'.cell.slot.Holds? ==> s.cell.slot.Holds? || s'.cell.log == s.cell.log)
            && (Registered(p') && !Registered(p) ==> p'.mark == |s.cell.log| == |s'.cell.log|)
            && (Registered(p') && Registered(p) ==> p'.mark == p.mark)
            && (AtRest(p) ==> p'.Checking? && s'.cell.log == s.cell.log)
  {
  }

  lemma LeafPollKeepsInv<V>(s: State<V>, s': State<V>)
    requires Inv(s) && LeafPollStep(s, s')
    ensures Inv(s')
  {
    hide Leaf.Inv, Cell.Inv, Driver.Inv, Leaf.Poll, Follows, InFlight;
    LeafKeepsInv(s.leaf, s'.leaf);
    PollerMoves(s.leaf, s'.leaf);
    FollowsDriver(s.leaf, s'.leaf, s.driver, s'.driver);
  }

  /** What the driver does with what is in flight. */
  lemma DriverMoves(d: Driver.State, d': Driver.State, ok: bool)
    requires Driver.Inv(d) && Driver.Step(d, d', ok)
    ensures d'.somes >= d.somes
    ensures InFlight(d') >= InFlight(d) || Fails(d, d', ok) || (d.pc.Idle? && d'.pc.Entered?)
    ensures d.pc.Entered? ==> d'.pc.Entered? || d'.pc.Polling? || d'.somes > 0
    ensures d'.pc.Polling? && !d.pc.Polling? ==> d.pc.Entered?
    ensures d.pc.Polling? ==> d'.pc.Polling? || d'.pc.DropContext? || d'.somes > 0
  {
    hide Driver.LoopStep, Driver.CopyStep, Driver.OwedStep, Driver.WakeHereStep, Driver.WakeAwayStep, InFlight, Fails;
    if Driver.LoopStep(d, d', ok) {
      LoopMoves(d, d', ok);
    } else if Driver.CopyStep(d, d') || Driver.OwedStep(d, d') {
      CountMoves(d, d');
    } else {
      WakeMoves(d, d', ok);
    }
  }

  lemma CountMoves(d: Driver.State, d': Driver.State)
    requires Driver.CopyStep(d, d') || Driver.OwedStep(d, d')
    ensures d'.somes == d.somes && d'.pc == d.pc && InFlight(d') == InFlight(d)
  {
  }

  lemma WakeMoves(d: Driver.State, d': Driver.State, ok: bool)
    requires Driver.WakeHereStep(d, d', ok) || Driver.WakeAwayStep(d, d', ok)
    ensures d'.somes == d.somes && d'.pc == d.pc && (InFlight(d') >= InFlight(d) || Fails(d, d', ok))
  {
  }

  lemma LoopMoves(d: Driver.State, d': Driver.State, ok: bool)
    requires Driver.Progress(d) && Driver.LoopStep(d, d', ok)
    ensures d'.somes >= d.somes
    ensures InFlight(d') >= InFlight(d) || Fails(d, d', ok) || (d.pc.Idle? && d'.pc.Entered?)
    ensures d.pc.Entered? ==> d'.pc.Entered? || d'.pc.Polling? || d'.somes > 0
    ensures d'.pc.Polling? && !d.pc.Polling? ==> d.pc.Entered?
    ensures d.pc.Polling? ==> d'.pc.Polling? || d'.pc.DropContext? || d'.somes > 0
  {
  }

  lemma DriverKeepsInv<V>(s: State<V>, s': State<V>, ok: bool)
    requires Inv(s) && DriverStep(s, s', ok)
    ensures Inv(s')
  {
    hide Leaf.Inv, Cell.Inv, Driver.Inv, Driver.Step, InFlight, Fails;
    Driver.StepKeepsInv(s.driver, s'.driver, ok);
    DriverMoves(s.driver, s'.driver, ok);
  }

  lemma {:induction false} RunKeepsInv<V>(run: seq<State<V>>, k: nat)
    requires IsRun(run) && k < |run|
    ensures Inv(run[k])
  {
    hide Inv, Init, ResolverStep, LeafPollStep, DriverStep;
    if k == 0 {
      InitInv(run[0]);
    } else {
      RunKeepsInv(run, k - 1);
      assert StepAt(run, k - 1);
      var s, s' := run[k - 1], run[k];
      if ResolverStep(s, s') {
        ResolverKeepsInv(s, s');
      } else if LeafPollStep(s, s') {
        LeafPollKeepsInv(s, s');
      } else {
        var ok :| DriverStep(s, s', ok);
        DriverKeepsInv(s, s', ok);
      }
    }
  }

  lemma InitInv<V>(s: State<V>)
    requires Init(s)
    ensures Inv(s)
  {
    hide Driver.Inv, Cell.Inv, Leaf.Inv;
    Driver.InitInv(s.driver);
    LeafInit(s.leaf);
  }

  lemma LeafInit<V>(s: Leaf.State<V>)
    requires Leaf.Init(s)
    ensures Leaf.Inv(s) && Cell.Inv(s.cell)
  {
  }

  // ---------- What it is for ----------

  /** No resolve() and no wake() is under way. */
  ghost predicate Quiet<V>(s: State<V>) {
    Cell.AllQuiet(s.leaf.cell) && Driver.NoWakes(s.driver)
  }

  /** A step is queued or running, or a token that posts one, or the node has answered. */
  predicate StepAhead(d: Driver.State) {
    || d.steps > 0 || d.pc.Entered? || d.pc.Polling?
    || d.tokens > 0 || d.pc.Token? || d.pc.TokenRetained?
    || d.somes > 0
  }

  /**
   In every run: when the leaf is Ready, its last poll left it pending, no call of resolve()
   or wake() is running and no post has failed, a step that will poll it is queued or
   running, or one is about to be posted, or the spawned promise has its answer.
   */
  lemma ReadyLeafIsPolled<V>(run: seq<State<V>>, k: nat)
    requires IsRun(run) && k < |run|
    requires run[k].leaf.phase.Ready? && run[k].leaf.cell.poller.Parked? && Quiet(run[k]) && run[k].lost == 0
    ensures StepAhead(run[k].driver)
  {
    hide Driver.Inv;
    RunKeepsInv(run, k);
    ReadyIsFired(run[k].leaf);
  }

  lemma ReadyIsFired<V>(s: Leaf.State<V>)
    requires Leaf.Inv(s) && Cell.Inv(s.cell) && s.phase.Ready? && s.cell.poller.Parked? && Cell.AllQuiet(s.cell)
    ensures |s.cell.log| > s.cell.poller.mark
  {
    forall t | t in s.cell.threads ensures s.cell.threads[t].Quiet? {
      assert Cell.ThreadOf(s.cell, t).Quiet?;
    }
  }

  /** The driver can always follow: whoever fires the waker has a copy to call. */
  lemma FireCanBegin<V>(run: seq<State<V>>, k: nat, leaf': Leaf.State<V>) returns (d': Driver.State)
    requires IsRun(run) && k < |run| && Leaf.Next(run[k].leaf, leaf') && |leaf'.cell.log| > |run[k].leaf.cell.log|
    requires Leaf.Poll(run[k].leaf, leaf') ==> run[k].driver.pc.Polling?
    ensures Follows(run[k].leaf, leaf', run[k].driver, d')
  {
    hide Leaf.Inv, Cell.Inv, Driver.Inv;
    RunKeepsInv(run, k);
    var d := run[k].driver;
    d' := d.(posting := d.posting + 1, strong := d.strong + 1);
    if !Leaf.Poll(run[k].leaf, leaf') {
      var t :| Leaf.ResolverStep(run[k].leaf, leaf', t);
      OnlyStoredFires(run[k].leaf, leaf', t);
    }
  }

  lemma OnlyStoredFires<V>(s: Leaf.State<V>, s': Leaf.State<V>, t: Leaf.Tid)
    requires Leaf.ResolverStep(s, s', t) && |s'.cell.log| > |s.cell.log|
    ensures s.cell.slot.Holds?
  {
  }
}
