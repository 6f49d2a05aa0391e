/**
 The publication protocol of `ResolveState`: any number of concurrent `resolve()`
 calls, one poller running `poll_state`, and the waker cell between them. The
 cell is the machine of `WakerCell`; this layer adds the tri-state word and the
 payload, and each of its steps moves the cell by one cell step or not at all.
 */
module ResolveState {
  import opened Common
  import Cell = WakerCell

  type Tid = Cell.Tid

  datatype Phase = Waiting | Resolving | Ready

  /** Where one call of `resolve(v)` stands. */
  datatype Resolver<V> =
    | Lost(v: V)        // its CAS failed: somebody else had claimed
    | Claimed(v: V)     // owns Resolving, payload not yet written
    | Written(v: V)     // payload written, Ready not yet stored
    | Published(v: V)   // Ready stored; what is left is wake()

  datatype Winner<V> = Winner(tid: Tid, v: V)

  datatype State<V> = State(
    cell: Cell.State,
    phase: Phase,
    value: Option<V>,
    resolvers: map<Tid, Resolver<V>>,
    got: Option<V>,                    // what the poller has returned, once it has
    winner: Option<Winner<V>>)         // history: whose claim succeeded

  // ---------- Steps ----------

  ghost predicate Claim<V>(s: State<V>, s': State<V>, t: Tid, v: V) {
    && t !in s.resolvers
    && s' == if s.phase.Waiting?
             then s.(phase := Resolving, resolvers := s.resolvers[t := Claimed(v)], winner := Some(Winner(t, v)))
             else s.(resolvers := s.resolvers[t := Lost(v)])
  }

  ghost predicate Write<V>(s: State<V>, s': State<V>, t: Tid) {
    && t in s.resolvers && s.resolvers[t].Claimed?
    && var v := s.resolvers[t].v;
    s' == s.(value := Some(v), resolvers := s.resolvers[t := Written(v)])
  }

  ghost predicate Publish<V>(s: State<V>, s': State<V>, t: Tid) {
    && t in s.resolvers && s.resolvers[t].Written?
    && Cell.RaiseStep(s.cell, s'.cell, t, false)
    && s' == s.(phase := Ready, resolvers := s.resolvers[t := Published(s.resolvers[t].v)], cell := s'.cell)
  }

  ghost predicate Wake<V>(s: State<V>, s': State<V>, t: Tid) {
    && t in s.resolvers && s.resolvers[t].Published?
    && (Cell.OrStep(s.cell, s'.cell, t) || Cell.FireStep(s.cell, s'.cell, t) || Cell.StoreStep(s.cell, s'.cell, t))
    && s' == s.(cell := s'.cell)
  }

  /** The poller finishes a poll with some: it moves the payload out. */
  predicate Returns(p: Cell.Poller, p': Cell.Poller) {
    !p.Idle? && p'.Idle?
  }

  ghost predicate Poll<V>(s: State<V>, s': State<V>) {
    && Cell.PollerStep(s.cell, s'.cell)
    && (s'.cell.poller.Checking? ==> s.got.None?)         // never polled again after some
    && s'.cell.pending == s.cell.pending                  // Ready is never withdrawn
    && !s'.cell.poller.Taking?                            // poll_state answers through wake()
    && s' == if Returns(s.cell.poller, s'.cell.poller)
             then s.(cell := s'.cell, got := s.value, value := None)
             else s.(cell := s'.cell)
  }

  ghost predicate Init<V>(s: State<V>) {
    Cell.Init(s.cell) && s == State(s.cell, Waiting, None, map[], None, None)
  }

  ghost predicate ResolverStep<V>(s: State<V>, s': State<V>, t: Tid) {
    || (t in s'.resolvers && Claim(s, s', t, s'.resolvers[t].v))
    || Write(s, s', t) || Publish(s, s', t) || Wake(s, s', t)
  }

  ghost predicate Next<V>(s: State<V>, s': State<V>) {
    Poll(s, s') || exists t :: ResolverStep(s, s', t)
  }

  ghost predicate StepAt<V>(run: seq<State<V>>, i: nat)
    requires i + 1 < |run|
  {
    Next(run[i], run[i + 1])
  }

  ghost predicate IsRun<V>(run: seq<State<V>>) {
    && |run| > 0
    && Init(run[0])
    && forall i: nat :: i + 1 < |run| ==> StepAt(run, i)
  }

  // ---------- Invariant ----------

  /** This call claimed the state. */
  predicate Won<V>(r: Resolver<V>) { !r.Lost? }

  /** What the winner's progress says about the word, the payload and the cell. */
  ghost predicate Progress<V>(s: State<V>) {
    match s.winner
    case None => s.phase.Waiting? && s.value.None? && s.got.None? && s.cell.pending == 0
    case Some(Winner(t, v)) =>
      && t in s.resolvers
      && match s.resolvers[t]
         case Lost(_) => false
         case Claimed(x) => x == v && s.phase.Resolving? && s.value.None? && s.got.None? && s.cell.pending == 0
         case Written(x) => x == v && s.phase.Resolving? && s.value == Some(v) && s.got.None? && s.cell.pending == 0
         case Published(x) =>
           && x == v && s.phase.Ready? && s.cell.pending == 1
           && ((s.value == Some(v) && s.got.None?) || (s.value.None? && s.got == Some(v) && s.cell.poller.Idle?))
  }

  ghost predicate Inv<V>(s: State<V>) {
    && Progress(s)
    && (forall t :: t in s.resolvers && Won(s.resolvers[t]) ==> s.winner.Some? && s.winner.value.tid == t)
    && (forall t :: t in s.cell.threads && !s.cell.threads[t].Quiet? ==>
          s.winner.Some? && s.winner.value.tid == t && s.phase.Ready?)
    && (s.cell.pending == 0 ==> !s.cell.poller.SelfWaking? && !s.cell.poller.SelfOwning? && !s.cell.poller.SelfFired?)
    && !s.cell.poller.Taking? && !s.cell.poller.Clearing? && !s.cell.poller.TakeDone?
  }

  lemma ResolverStepKeepsInv<V>(s: State<V>, s': State<V>, t: Tid)
    requires Inv(s) && ResolverStep(s, s', t)
    ensures Inv(s')
  {
  }

  lemma PollKeepsInv<V>(s: State<V>, s': State<V>)
    requires Inv(s) && Poll(s, s')
    ensures Inv(s')
  {
  }

  lemma NextKeepsInv<V>(s: State<V>, s': State<V>)
    requires Inv(s) && Next(s, s')
    ensures Inv(s')
  {
    if Poll(s, s') {
      PollKeepsInv(s, s');
    } else {
      var t :| ResolverStep(s, s', t);
      ResolverStepKeepsInv(s, s', t);
    }
  }

  lemma {:induction false} RunKeepsInv<V>(run: seq<State<V>>, k: nat)
    requires IsRun(run) && k < |run|
    ensures Inv(run[k])
  {
    if k > 0 {
      RunKeepsInv(run, k - 1);
      assert StepAt(run, k - 1);
      NextKeepsInv(run[k - 1], run[k]);
    }
  }

  // ---------- What callers rely on ----------

  /** Exactly-once: of all the concurrent `resolve()` calls only one ever claims the state. */
  lemma OnlyOneResolveWins<V>(run: seq<State<V>>, k: nat, t: Tid, u: Tid)
    requires IsRun(run) && k < |run|
    requires t in run[k].resolvers && Won(run[k].resolvers[t])
    requires u in run[k].resolvers && Won(run[k].resolvers[u])
    ensures t == u
  {
    RunKeepsInv(run, k);
  }

  /** Whatever a poll returns is the payload of the call that won, read after its Ready. */
  lemma PollReturnsTheWinningValue<V>(run: seq<State<V>>, k: nat)
    requires IsRun(run) && k < |run| && run[k].got.Some?
    ensures run[k].phase.Ready? && run[k].winner.Some? && run[k].got.value == run[k].winner.value.v
  {
    RunKeepsInv(run, k);
  }

  /**
   The payload is free of races: it is stored only while the state is Resolving, by
   the winner and before any Ready; it is moved out only while the state is Ready.
   */
  lemma PayloadAccess<V>(run: seq<State<V>>, k: nat)
    requires IsRun(run) && k + 1 < |run| && run[k + 1].value != run[k].value
    ensures run[k + 1].value.Some? ==> run[k].phase.Resolving? && run[k + 1].phase.Resolving?
    ensures run[k + 1].value.None? ==> run[k].phase.Ready? && run[k].got.None? && run[k + 1].got == run[k].value
  {
    RunKeepsInv(run, k);
    RunKeepsInv(run, k + 1);
    assert StepAt(run, k);
    var s, s' := run[k], run[k + 1];
    if !Poll(s, s') {
      var t :| ResolverStep(s, s', t);
    }
  }

  // ---------- No lost wake, inherited from the cell ----------

  function Cells<V>(run: seq<State<V>>): seq<Cell.State> {
    seq(|run|, i requires 0 <= i < |run| => run[i].cell)
  }

  lemma CellRun<V>(run: seq<State<V>>)
    requires IsRun(run)
    ensures Cell.IsRun(Cells(run))
  {
    forall i: nat | i + 1 < |run| ensures Cell.StepAt(Cells(run), i) {
      assert StepAt(run, i);
      CellStep(run[i], run[i + 1]);
    }
  }

  lemma CellStep<V>(s: State<V>, s': State<V>)
    requires Next(s, s')
    ensures Cell.Next(s.cell, s'.cell)
  {
    if !Poll(s, s') {
      var t :| ResolverStep(s, s', t);
      if s'.cell != s.cell {
        assert Cell.ThreadStep(s.cell, s'.cell, t);
      }
    }
  }

  /**
   A parked poller is never forgotten: once the state is Ready and the winning
   `resolve()` has returned from `wake()`, the waker of the last poll has been fired
   since that poll registered.
   */
  lemma ReadyReachesTheParkedPoller<V>(run: seq<State<V>>, k: nat)
    requires IsRun(run) && k < |run|
    requires run[k].phase.Ready? && run[k].cell.poller.Parked?
    requires run[k].winner.Some? ==> Cell.ThreadOf(run[k].cell, run[k].winner.value.tid).Quiet?
    ensures Cell.FiredSince(run[k].cell, run[k].cell.poller.w, run[k].cell.poller.mark)
  {
    RunKeepsInv(run, k);
    CellRun(run);
    assert Cells(run)[k] == run[k].cell;
    Cell.NoLostWake(Cells(run), k);
  }
}
