/**
 What a promise tree means, independently of polling: when it resolves under a
 schedule of leaf readiness and with what value. `DriveMeans` shows that polling
 the nodes step by step computes exactly this, for every tree and every schedule.
 */
module PromiseMeaning {
  import opened Common
  import opened PromiseTree

  /** The first snapshot in which the leaf is ready. */
  ghost function FirstReady(id: nat, envs: seq<Env>): Option<Outcome>
    decreases |envs|
  {
    if envs == [] then None
    else if envs[0](id).Some? then Some(Outcome(0, envs[0](id).value))
    else Later(FirstReady(id, envs[1..]))
  }

  datatype Gathered = Gathered(time: nat, values: seq<Data>)

  function Max(a: nat, b: nat): nat { if a < b then b else a }

  /** The earlier of two outcomes, the first one on a tie. */
  function Earlier(a: Option<Outcome>, b: Option<Outcome>): Option<Outcome> {
    if a.None? then b
    else if b.None? || a.value.time <= b.value.time then a else b
  }

  ghost function Meaning(n: Node, envs: seq<Env>): (o: Option<Outcome>)
    ensures o.Some? ==> o.value.time < |envs|
    decreases n, 1
  {
    match n
    case Leaf(id) => LeafInTime(id, envs); FirstReady(id, envs)
    case Never => None
    case Immediate(v) => if envs == [] then None else Some(Outcome(0, v))
    case Transform(dep, fn) =>
      var d := Meaning(dep, envs);
      if d.None? then None else Some(Outcome(d.value.time, fn(d.value.value)))
    case Chain(_, Some(inner)) => Meaning(inner, envs)
    case Chain(Outer(dep, fn), None) =>
      // once the outer promise resolves, the inner one lives on the rest of the schedule
      var d := Meaning(dep, envs);
      if d.None? || d.value.value !in fn then None
      else
        var i := Meaning(fn[d.value.value], envs[d.value.time..]);
        if i.None? then None else Some(Outcome(d.value.time + i.value.time, i.value.value))
    case All(kids, _, void) =>
      var g := Gather(kids, envs);
      if g.None? || envs == [] then None
      else Some(Outcome(g.value.time, if void then Unit else Tuple(g.value.values)))
    case Race(nodes) => Earliest(nodes, envs)
  }

  /** When the last child resolves, and all their values in order. */
  ghost function Gather(kids: seq<Kid>, envs: seq<Env>): (g: Option<Gathered>)
    ensures g.Some? && envs != [] ==> g.value.time < |envs|
    decreases kids, 0
  {
    if kids == [] then Some(Gathered(0, []))
    else
      assert kids decreases to kids[0];
      var h := if kids[0].result.Some? then Some(Outcome(0, kids[0].result.value)) else Meaning(kids[0].node, envs);
      Join(h, Gather(kids[1..], envs))
  }

  function Join(h: Option<Outcome>, rest: Option<Gathered>): Option<Gathered> {
    if h.None? || rest.None? then None
    else Some(Gathered(Max(h.value.time, rest.value.time), [h.value.value] + rest.value.values))
  }

  /** The child that resolves first, the lowest index on a tie. */
  ghost function Earliest(nodes: seq<Node>, envs: seq<Env>): (o: Option<Outcome>)
    ensures o.Some? ==> o.value.time < |envs|
    decreases nodes, 0
  {
    if nodes == [] then None else Earlier(Meaning(nodes[0], envs), Earliest(nodes[1..], envs))
  }

  lemma {:induction false} LeafInTime(id: nat, envs: seq<Env>)
    ensures FirstReady(id, envs).Some? ==> FirstReady(id, envs).value.time < |envs|
    decreases |envs|
  {
    if envs != [] {
      LeafInTime(id, envs[1..]);
    }
  }

  // ---------- One poll ----------

  /** What one poll says about the meaning on the whole schedule. */
  ghost function AfterPoll(n: Node, envs: seq<Env>): Option<Outcome>
    requires envs != []
  {
    var r := Poll(n, envs[0]);
    if r.answer.Some? then Some(Outcome(0, r.answer.value)) else Later(Meaning(r.node, envs[1..]))
  }

  lemma {:induction false} OnePoll(n: Node, envs: seq<Env>)
    requires envs != [] && WellFormed(n)
    ensures Meaning(n, envs) == AfterPoll(n, envs)
    decreases n, 1
  {
    match n
    case Transform(dep, _) => OnePoll(dep, envs);
    case Chain(_, Some(inner)) => OnePoll(inner, envs);
    case Chain(Outer(dep, fn), None) => OneChainPoll(dep, fn, envs);
    case All(kids, _, _) =>
      OneKidsPoll(kids, envs);
      KidsKeepWellFormed(kids, envs[0]);
      GatherFinished(PollKids(kids, envs[0]).kids, envs[1..]);
    case Race(nodes) => OneRacePoll(nodes, envs);
    case _ =>
  }

  /** The meaning of a flattened promise, given what the outer one means. */
  ghost function Flattened(d: Option<Outcome>, fn: Callback, envs: seq<Env>): Option<Outcome>
    requires d.Some? ==> d.value.time < |envs|
  {
    if d.None? then None
    else
      var i := Meaning(Apply(fn, d.value.value), envs[d.value.time..]);
      if i.None? then None else Some(Outcome(d.value.time + i.value.time, i.value.value))
  }

  lemma FlattenedLater(d: Option<Outcome>, fn: Callback, envs: seq<Env>)
    requires envs != [] && (d.Some? ==> d.value.time < |envs[1..]|)
    ensures Flattened(Later(d), fn, envs) == Later(Flattened(d, fn, envs[1..]))
  {
    if d.Some? {
      assert envs[1..][d.value.time..] == envs[d.value.time + 1..];
    }
  }

  lemma ChainMeans(dep: Node, fn: Callback, envs: seq<Env>)
    ensures Meaning(ThenFlat(dep, fn), envs) == Flattened(Meaning(dep, envs), fn, envs)
  {
  }

  lemma InnerMeans(o: Outer, n: Node, envs: seq<Env>)
    ensures Meaning(Chain(o, Some(n)), envs) == Meaning(n, envs)
  {
  }

  lemma NeverMeans(envs: seq<Env>)
    ensures Meaning(Never, envs).None?
  {
  }

  lemma {:induction false} OneChainPoll(dep: Node, fn: Callback, envs: seq<Env>)
    requires envs != [] && WellFormed(dep) && forall v :: v in fn ==> WellFormed(fn[v])
    ensures Meaning(ThenFlat(dep, fn), envs) == AfterPoll(ThenFlat(dep, fn), envs)
    decreases Outer(dep, fn), 0
  {
    hide Meaning, Poll, WellFormed;
    OnePoll(dep, envs);
    ChainMeans(dep, fn, envs);
    var d := Poll(dep, envs[0]);
    match d.answer
    case None =>
      OuterPending(dep, fn, envs[0]);
      ChainMeans(d.node, fn, envs[1..]);
      FlattenedLater(Meaning(d.node, envs[1..]), fn, envs);
    case Some(v) =>
      OuterDone(dep, fn, envs[0], v);
      assert envs[0..] == envs;
      InnerMeans(Outer(d.node, fn), Poll(Apply(fn, v), envs[0]).node, envs[1..]);
      if v in fn {
        OnePoll(fn[v], envs);
      } else {
        NeverMeans(envs);
        NeverPolled(envs[0]);
        NeverMeans(envs[1..]);
      }
  }

  lemma NeverPolled(env: Env)
    ensures Poll(Never, env) == Polling(None, Never, [])
  {
  }

  lemma {:induction false} NothingWithoutPolls(n: Node)
    ensures Meaning(n, []).None?
  {
  }

  lemma {:induction false} GatherFinished(kids: seq<Kid>, envs: seq<Env>)
    ensures Unfinished(kids) == 0 ==> Gather(kids, envs) == Some(Gathered(0, Results(kids)))
    ensures Unfinished(kids) > 0 && envs == [] ==> Gather(kids, envs).None?
  {
    if kids != [] {
      GatherFinished(kids[1..], envs);
      NothingWithoutPolls(kids[0].node);
    }
  }

  function GatherLater(g: Option<Gathered>): Option<Gathered> {
    if g.None? then None else Some(Gathered(g.value.time + 1, g.value.values))
  }

  lemma JoinLater(h: Option<Outcome>, rest: Option<Gathered>)
    ensures Join(Later(h), GatherLater(rest)) == GatherLater(Join(h, rest))
    ensures h.Some? && h.value.time == 0 ==> Join(h, GatherLater(rest)) == GatherLater(Join(h, rest))
    ensures rest.Some? && rest.value.time == 0 ==> Join(Later(h), rest) == GatherLater(Join(h, rest))
  {
  }

  lemma {:induction false} OneKidsPoll(kids: seq<Kid>, envs: seq<Env>)
    requires envs != [] && forall j :: 0 <= j < |kids| ==> WellFormed(kids[j].node)
    ensures var k := PollKids(kids, envs[0]);
            Gather(kids, envs) == if Unfinished(k.kids) == 0 then Some(Gathered(0, Results(k.kids)))
                                  else GatherLater(Gather(k.kids, envs[1..]))
    decreases kids, 0
  {
    if kids != [] {
      var k, rest := PollKids(kids, envs[0]).kids, PollKids(kids[1..], envs[0]).kids;
      OneKidsPoll(kids[1..], envs);
      GatherFinished(rest, envs[1..]);
      assert k[1..] == rest;
      assert kids decreases to kids[0];
      OnePoll(kids[0].node, envs);
      var h := if k[0].result.Some? then Some(Outcome(0, k[0].result.value)) else Meaning(k[0].node, envs[1..]);
      assert Gather(k, envs[1..]) == Join(h, Gather(rest, envs[1..]));
      JoinLater(h, Gather(rest, envs[1..]));
      assert Gather(kids, envs) == Join(if k[0].result.Some? then h else Later(h), Gather(kids[1..], envs));
    }
  }

  lemma {:induction false} OneRacePoll(nodes: seq<Node>, envs: seq<Env>)
    requires envs != [] && forall j :: 0 <= j < |nodes| ==> WellFormed(nodes[j])
    ensures var k := PollRace(nodes, envs[0]);
            Earliest(nodes, envs) == if k.answer.Some? then Some(Outcome(0, k.answer.value))
                                     else Later(Earliest(k.nodes, envs[1..]))
    decreases nodes, 0
  {
    if nodes != [] {
      OneRacePoll(nodes[1..], envs);
      OnePoll(nodes[0], envs);
      var k := PollRace(nodes, envs[0]).nodes;
      assert k[1..] == if Poll(nodes[0], envs[0]).answer.Some? then nodes[1..]
                       else PollRace(nodes[1..], envs[0]).nodes;
    }
  }

  // ---------- Whole schedules ----------

  /** Polling to the first some computes the meaning: same moment, same value. */
  lemma {:induction false} DriveMeans(n: Node, envs: seq<Env>)
    requires WellFormed(n)
    ensures Drive(n, envs) == Meaning(n, envs)
    decreases |envs|
  {
    if envs == [] {
      NothingWithoutPolls(n);
    } else {
      OnePoll(n, envs);
      PollKeepsWellFormed(n, envs[0]);
      DriveMeans(Poll(n, envs[0]).node, envs[1..]);
    }
  }

  // ---------- all() and race(), child by child ----------

  ghost function Meanings(nodes: seq<Node>, envs: seq<Env>): (os: seq<Option<Outcome>>)
    ensures |os| == |nodes| && forall i :: 0 <= i < |nodes| ==> os[i] == Meaning(nodes[i], envs)
  {
    seq(|nodes|, i requires 0 <= i < |nodes| => Meaning(nodes[i], envs))
  }

  /** Every child driven on its own, under the same schedule. */
  ghost function DriveEach(nodes: seq<Node>, envs: seq<Env>): (os: seq<Option<Outcome>>)
    ensures |os| == |nodes| && forall i :: 0 <= i < |nodes| ==> os[i] == Drive(nodes[i], envs)
  {
    seq(|nodes|, i requires 0 <= i < |nodes| => Drive(nodes[i], envs))
  }

  lemma EachMeans(nodes: seq<Node>, envs: seq<Env>)
    requires forall i :: 0 <= i < |nodes| ==> WellFormed(nodes[i])
    ensures DriveEach(nodes, envs) == Meanings(nodes, envs)
  {
    forall i | 0 <= i < |nodes| ensures Drive(nodes[i], envs) == Meaning(nodes[i], envs) {
      DriveMeans(nodes[i], envs);
    }
  }

  predicate Resolved(os: seq<Option<Outcome>>) {
    forall i :: 0 <= i < |os| ==> os[i].Some?
  }

  /** `t` is the moment the last of them resolves. */
  predicate IsLastMoment(os: seq<Option<Outcome>>, t: nat)
    requires Resolved(os)
  {
    (forall i :: 0 <= i < |os| ==> os[i].value.time <= t) && exists i :: 0 <= i < |os| && os[i].value.time == t
  }

  predicate AreValues(os: seq<Option<Outcome>>, vs: seq<Data>)
    requires Resolved(os)
  {
    |vs| == |os| && forall i :: 0 <= i < |os| ==> vs[i] == os[i].value.value
  }

  lemma {:induction false} GatherChildren(nodes: seq<Node>, envs: seq<Env>)
    requires nodes != []
    ensures var g, os := Gather(Fresh(nodes), envs), Meanings(nodes, envs);
            && (g.Some? <==> Resolved(os))
            && (g.Some? ==> IsLastMoment(os, g.value.time) && AreValues(os, g.value.values))
  {
    var os := Meanings(nodes, envs);
    assert Fresh(nodes)[1..] == Fresh(nodes[1..]);
    if |nodes| > 1 {
      GatherChildren(nodes[1..], envs);
      assert os[1..] == Meanings(nodes[1..], envs);
    } else {
      assert Gather(Fresh(nodes[1..]), envs) == Some(Gathered(0, []));
    }
  }

  /**
   `all()` resolves exactly when every child, driven on its own under the same
   schedule, does; at the moment the last one does; with their values in order.
   */
  lemma AllYieldsEveryValue(nodes: seq<Node>, void: bool, envs: seq<Env>)
    requires nodes != [] && forall i :: 0 <= i < |nodes| ==> WellFormed(nodes[i])
    ensures var o, os := Drive(AllOf(nodes, void), envs), DriveEach(nodes, envs);
            && (o.Some? <==> Resolved(os))
            && (o.Some? ==>
                  && IsLastMoment(os, o.value.time)
                  && if void then o.value.value == Unit
                     else o.value.value.Tuple? && AreValues(os, o.value.value.items))
  {
    EachMeans(nodes, envs);
    AllOfWellFormed(nodes, void);
    DriveMeans(AllOf(nodes, void), envs);
    GatherChildren(nodes, envs);
    if envs == [] {
      NothingWithoutPolls(nodes[0]);
    }
  }

  /** Index `w` resolves no later than any other, and before all of lower index. */
  predicate Wins(os: seq<Option<Outcome>>, w: nat) {
    && w < |os| && os[w].Some?
    && (forall i :: 0 <= i < |os| && os[i].Some? ==> os[w].value.time <= os[i].value.time)
    && (forall i :: 0 <= i < w && os[i].Some? ==> os[w].value.time < os[i].value.time)
  }

  lemma {:induction false} EarliestChild(nodes: seq<Node>, envs: seq<Env>)
    ensures var o, os := Earliest(nodes, envs), Meanings(nodes, envs);
            if o.Some? then (exists w: nat :: Wins(os, w) && os[w] == o)
            else (forall i :: 0 <= i < |os| ==> os[i].None?)
  {
    if nodes != [] {
      var o, os := Earliest(nodes, envs), Meanings(nodes, envs);
      EarliestChild(nodes[1..], envs);
      assert os[1..] == Meanings(nodes[1..], envs);
      if o.Some? && o == Earliest(nodes[1..], envs) && o != os[0] {
        var w: nat :| Wins(os[1..], w) && os[1..][w] == o;
        assert Wins(os, w + 1);
      } else if o.Some? {
        assert Wins(os, 0);
      }
    }
  }

  /**
   `race()` resolves as soon as any child does, with the value of the lowest-index
   child among those that resolve at that moment.
   */
  lemma RaceYieldsTheFirst(nodes: seq<Node>, envs: seq<Env>)
    requires forall i :: 0 <= i < |nodes| ==> WellFormed(nodes[i])
    ensures var o, os := Drive(Race(nodes), envs), DriveEach(nodes, envs);
            if o.Some? then (exists w: nat :: Wins(os, w) && os[w] == o)
            else (forall i :: 0 <= i < |os| ==> os[i].None?)
  {
    EachMeans(nodes, envs);
    DriveMeans(Race(nodes), envs);
    EarliestChild(nodes, envs);
  }
}
