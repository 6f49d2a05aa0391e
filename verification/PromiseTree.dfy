/**
 Promise trees and their poll semantics: the nodes behind `then`, auto-flatten,
 `all` and `race`. A tree is a value; polling it against one snapshot of which
 leaves are ready gives an answer, the tree afterwards and the leaves the
 poll asked. A callback that returns a promise is a table from the value it is
 given to the tree it builds, so every tree is well founded and `Poll` is total.
 */
module PromiseTree {
  import opened Common

  /** The data a promise carries; `all` yields tuples. */
  datatype Data = Unit | Atom(n: int) | Tuple(items: seq<Data>)

  type Callback = imap<Data, Node>

  datatype Node =
    | Leaf(id: nat)                                  // resolved from outside: ManualResolveNode, adapters
    | Never                                          // its resolver is gone: pending for good
    | Immediate(v: Data)                             // ImmediatePromiseNode, YieldPromiseNode
    | Transform(dep: Node, fn: Data -> Data)         // TransformPromiseNode<U, T, Func>
    | Chain(outer: Outer, inner: Option<Node>)       // ChainPromiseNode
    | All(kids: seq<Kid>, remaining: int, void: bool) // AllTuplePromiseNode, AllVoidPromiseNode
    | Race(nodes: seq<Node>)                         // RacePromiseNode

  /** TransformPromiseNode<Promise<U>, T, Func>: a node whose value is itself a promise. */
  datatype Outer = Outer(dep: Node, fn: Callback)

  /** A child of an `all` node and the slot for its result. */
  datatype Kid = Kid(node: Node, result: Option<Data>)

  /** Calling a promise-returning callback; an entry left out never resolves. */
  ghost function Apply(fn: Callback, v: Data): Node {
    if v in fn then fn[v] else Never
  }

  // ---------- Constructors ----------

  /** `p.then(f)` with a plain callback. */
  function Then(p: Node, f: Data -> Data): Node {
    Transform(p, f)
  }

  /** `p.then(f)` with a promise-returning callback: a transform inside a chain node. */
  function ThenFlat(p: Node, f: Callback): Node {
    Chain(Outer(p, f), None)
  }

  function Fresh(nodes: seq<Node>): seq<Kid> {
    if nodes == [] then [] else [Kid(nodes[0], None)] + Fresh(nodes[1..])
  }

  /** `all(...)`, of values or of voids, before its first poll. */
  function AllOf(nodes: seq<Node>, void: bool): Node {
    All(Fresh(nodes), |nodes|, void)
  }

  // ---------- Polling ----------

  /** Which leaves are ready at this poll, and with what. */
  type Env = nat -> Option<Data>

  /** One poll: its answer, the tree afterwards and the leaves it asked, in order. */
  datatype Polling = Polling(answer: Option<Data>, node: Node, leaves: seq<nat>)

  datatype KidsPolling = KidsPolling(kids: seq<Kid>, done: nat, leaves: seq<nat>)

  datatype RacePolling = RacePolling(answer: Option<Data>, nodes: seq<Node>, leaves: seq<nat>)

  ghost function Poll(n: Node, env: Env): Polling
    decreases n, 1
  {
    match n
    case Leaf(id) => Polling(env(id), n, [id])
    case Never => Polling(None, n, [])
    case Immediate(v) => Polling(Some(v), n, [])
    case Transform(dep, fn) =>
      var d := Poll(dep, env);
      Polling(if d.answer.None? then None else Some(fn(d.answer.value)), Transform(d.node, fn), d.leaves)
    case Chain(outer, Some(inner)) =>
      var i := Poll(inner, env);
      Polling(i.answer, Chain(outer, Some(i.node)), i.leaves)
    case Chain(Outer(dep, fn), None) =>
      var d := Poll(dep, env);
      if d.answer.None? then Polling(None, Chain(Outer(d.node, fn), None), d.leaves)
      else
        var i := if d.answer.value in fn then Poll(fn[d.answer.value], env) else Polling(None, Never, []);
        Polling(i.answer, Chain(Outer(d.node, fn), Some(i.node)), d.leaves + i.leaves)
    case All(kids, remaining, void) =>
      var k := PollKids(kids, env);
      Polling(if remaining - k.done == 0 then Some(Collect(k.kids, void)) else None,
              All(k.kids, remaining - k.done, void), k.leaves)
    case Race(nodes) =>
      var k := PollRace(nodes, env);
      Polling(k.answer, Race(k.nodes), k.leaves)
  }

  /** Polls, in order, every child that has no result yet. */
  ghost function PollKids(kids: seq<Kid>, env: Env): (r: KidsPolling)
    ensures |r.kids| == |kids|
    decreases kids, 0
  {
    if kids == [] then KidsPolling([], 0, [])
    else
      var rest := PollKids(kids[1..], env);
      if kids[0].result.Some? then KidsPolling([kids[0]] + rest.kids, rest.done, rest.leaves)
      else
        assert kids decreases to kids[0];
        var h := Poll(kids[0].node, env);
        KidsPolling([Kid(h.node, h.answer)] + rest.kids, rest.done + (if h.answer.Some? then 1 else 0),
                    h.leaves + rest.leaves)
  }

  /** Polls the children in order, stopping at the first that answers. */
  ghost function PollRace(nodes: seq<Node>, env: Env): (r: RacePolling)
    ensures |r.nodes| == |nodes|
    decreases nodes, 0
  {
    if nodes == [] then RacePolling(None, [], [])
    else
      var h := Poll(nodes[0], env);
      if h.answer.Some? then RacePolling(h.answer, [h.node] + nodes[1..], h.leaves)
      else
        var rest := PollRace(nodes[1..], env);
        RacePolling(rest.answer, [h.node] + rest.nodes, h.leaves + rest.leaves)
  }

  function Results(kids: seq<Kid>): seq<Data> {
    if kids == [] then []
    else [if kids[0].result.Some? then kids[0].result.value else Unit] + Results(kids[1..])
  }

  function Collect(kids: seq<Kid>, void: bool): Data {
    if void then Unit else Tuple(Results(kids))
  }

  /** A poll of an unflattened chain whose outer promise stays pending. */
  lemma OuterPending(p: Node, f: Callback, env: Env)
    requires Poll(p, env).answer.None?
    ensures Poll(ThenFlat(p, f), env) == Polling(None, ThenFlat(Poll(p, env).node, f), Poll(p, env).leaves)
  {
  }

  /** A poll of an unflattened chain whose outer promise resolves: the inner one is polled at once. */
  lemma OuterDone(p: Node, f: Callback, env: Env, v: Data)
    requires Poll(p, env).answer == Some(v)
    ensures var d, i := Poll(p, env), Poll(Apply(f, v), env);
            Poll(ThenFlat(p, f), env) == Polling(i.answer, Chain(Outer(d.node, f), Some(i.node)), d.leaves + i.leaves)
  {
  }

  // ---------- Well-formed trees ----------

  function Unfinished(kids: seq<Kid>): nat {
    if kids == [] then 0 else (if kids[0].result.None? then 1 else 0) + Unfinished(kids[1..])
  }

  /** Every `all` node's counter agrees with its result slots, also in trees not yet built. */
  ghost predicate WellFormed(n: Node) {
    match n
    case Transform(dep, _) => WellFormed(dep)
    case Chain(Outer(dep, fn), inner) =>
      && WellFormed(dep)
      && (forall v :: v in fn ==> WellFormed(fn[v]))
      && (inner.Some? ==> WellFormed(inner.value))
    case All(kids, remaining, _) =>
      && remaining == Unfinished(kids)
      && forall i :: 0 <= i < |kids| ==> WellFormed(kids[i].node)
    case Race(nodes) => forall i :: 0 <= i < |nodes| ==> WellFormed(nodes[i])
    case _ => true
  }

  lemma {:induction false} PollKeepsWellFormed(n: Node, env: Env)
    requires WellFormed(n)
    ensures WellFormed(Poll(n, env).node)
    decreases n, 1
  {
    match n
    case Transform(dep, _) => PollKeepsWellFormed(dep, env);
    case Chain(_, Some(inner)) => PollKeepsWellFormed(inner, env);
    case Chain(Outer(dep, fn), None) =>
      PollKeepsWellFormed(dep, env);
      var d := Poll(dep, env);
      if d.answer.Some? && d.answer.value in fn {
        PollKeepsWellFormed(fn[d.answer.value], env);
      }
    case All(kids, _, _) => KidsKeepWellFormed(kids, env);
    case Race(nodes) => RaceKeepsWellFormed(nodes, env);
    case _ =>
  }

  lemma {:induction false} KidsKeepWellFormed(kids: seq<Kid>, env: Env)
    requires forall j :: 0 <= j < |kids| ==> WellFormed(kids[j].node)
    ensures forall j :: 0 <= j < |kids| ==> WellFormed(PollKids(kids, env).kids[j].node)
    ensures Unfinished(PollKids(kids, env).kids) == Unfinished(kids) - PollKids(kids, env).done
    decreases kids, 0
  {
    if kids != [] {
      KidsKeepWellFormed(kids[1..], env);
      assert kids decreases to kids[0];
      PollKeepsWellFormed(kids[0].node, env);
      var rest := PollKids(kids[1..], env).kids;
      assert PollKids(kids, env).kids[1..] == rest;
    }
  }

  lemma {:induction false} RaceKeepsWellFormed(nodes: seq<Node>, env: Env)
    requires forall j :: 0 <= j < |nodes| ==> WellFormed(nodes[j])
    ensures forall j :: 0 <= j < |nodes| ==> WellFormed(PollRace(nodes, env).nodes[j])
    decreases nodes, 0
  {
    if nodes != [] {
      RaceKeepsWellFormed(nodes[1..], env);
      PollKeepsWellFormed(nodes[0], env);
    }
  }

  lemma {:induction false} FreshUnfinished(nodes: seq<Node>)
    ensures |Fresh(nodes)| == |nodes| == Unfinished(Fresh(nodes))
    ensures forall i :: 0 <= i < |nodes| ==> Fresh(nodes)[i] == Kid(nodes[i], None)
  {
    if nodes != [] {
      FreshUnfinished(nodes[1..]);
      assert Fresh(nodes)[1..] == Fresh(nodes[1..]);
    }
  }

  lemma AllOfWellFormed(nodes: seq<Node>, void: bool)
    requires forall i :: 0 <= i < |nodes| ==> WellFormed(nodes[i])
    ensures WellFormed(AllOf(nodes, void))
  {
    FreshUnfinished(nodes);
  }

  // ---------- Driving a tree ----------

  /** What an observer of one poll sees: the answer and which leaves were asked, in order. */
  datatype Sight = Sight(answer: Option<Data>, leaves: seq<nat>)

  ghost function See(n: Node, env: Env): Sight {
    Sight(Poll(n, env).answer, Poll(n, env).leaves)
  }

  datatype Outcome = Outcome(time: nat, value: Data)

  function Later(o: Option<Outcome>): Option<Outcome> {
    if o.None? then None else Some(Outcome(o.value.time + 1, o.value.value))
  }

  /** Polls once per snapshot, up to and including the first that answers some (`await`, `spawn`). */
  ghost function Drive(n: Node, envs: seq<Env>): Option<Outcome>
    decreases |envs|
  {
    if envs == [] then None
    else
      var r := Poll(n, envs[0]);
      if r.answer.Some? then Some(Outcome(0, r.answer.value)) else Later(Drive(r.node, envs[1..]))
  }

  ghost function Watch(n: Node, envs: seq<Env>): seq<Sight>
    decreases |envs|
  {
    if envs == [] then []
    else [See(n, envs[0])] + if Poll(n, envs[0]).answer.Some? then [] else Watch(Poll(n, envs[0]).node, envs[1..])
  }
}
