/**
 The poll contract of promise_node.h over whole runs: after a node has answered
 some it is never polled again, and every then-callback runs at most once. A node
 is named by its path from the root, and a run's trace lists every poll, answer
 and callback in order.
 */
module PromiseContract {
  import opened Common
  import opened PromiseTree

  /** Where a node sits: the child taken at each level below the one polled. */
  type Path = seq<nat>

  datatype Event =
    | Polled(p: Path)                  // poll entered
    | Returned(p: Path)                // poll answered some
    | Called(p: Path)                  // the then-callback of this node ran
    | Asked(p: Path, leaf: nat)        // the state behind a leaf was read

  /** The trace of child `i`, seen from its parent. */
  function Under(i: nat, t: seq<Event>): seq<Event> {
    if t == [] then [] else [t[0].(p := [i] + t[0].p)] + Under(i, t[1..])
  }

  function Within(t: seq<Event>, answer: bool): seq<Event> {
    [Polled([])] + t + if answer then [Returned([])] else []
  }

  function Call(called: bool): seq<Event> {
    if called then [Called([])] else []
  }

  /** Everything one poll does. Child 0 of a chain node is its outer node, child 1 its inner one. */
  ghost function Trace(n: Node, env: Env): seq<Event>
    decreases n, 1
  {
    Within(Inside(n, env), Poll(n, env).answer.Some?)
  }

  ghost function Inside(n: Node, env: Env): seq<Event>
    decreases n, 0
  {
    match n
    case Leaf(id) => [Asked([], id)]
    case Never => []
    case Immediate(_) => []
    case Transform(dep, _) => Under(0, Trace(dep, env)) + Call(Poll(dep, env).answer.Some?)
    case Chain(_, Some(inner)) => Under(1, Trace(inner, env))
    case Chain(Outer(dep, fn), None) =>
      var done := Poll(dep, env).answer.Some?;
      Under(0, Within(Under(0, Trace(dep, env)) + Call(done), done)) + if !done then []
      else if Poll(dep, env).answer.value in fn then Under(1, Trace(fn[Poll(dep, env).answer.value], env))
      else Under(1, Within([], false))
    case All(kids, _, _) => TraceKids(kids, env, 0)
    case Race(nodes) => TraceRace(nodes, env, 0)
  }

  ghost function TraceKids(kids: seq<Kid>, env: Env, i: nat): seq<Event>
    decreases kids, 0
  {
    if kids == [] then []
    else
      assert kids decreases to kids[0];
      (if kids[0].result.Some? then [] else Under(i, Trace(kids[0].node, env))) + TraceKids(kids[1..], env, i + 1)
  }

  ghost function TraceRace(nodes: seq<Node>, env: Env, i: nat): seq<Event>
    decreases nodes, 0
  {
    if nodes == [] then []
    else Under(i, Trace(nodes[0], env)) + if Poll(nodes[0], env).answer.Some? then [] else TraceRace(nodes[1..], env, i + 1)
  }

  /** One poll per snapshot, up to and including the first that answers some. */
  ghost function DriveTrace(n: Node, envs: seq<Env>): seq<Event>
    decreases |envs|
  {
    if envs == [] then []
    else Trace(n, envs[0]) + if Poll(n, envs[0]).answer.Some? then [] else DriveTrace(Poll(n, envs[0]).node, envs[1..])
  }

  // ---------- Clean traces ----------

  /** May `e` happen after all of `seen`? */
  predicate Allowed(e: Event, seen: set<Event>) {
    match e
    case Polled(p) => Returned(p) !in seen
    case Returned(_) => e !in seen
    case Called(_) => e !in seen
    case Asked(_, _) => true
  }

  predicate Clean(t: seq<Event>, seen: set<Event>) {
    t == [] || (Allowed(t[0], seen) && Clean(t[1..], seen + {t[0]}))
  }

  function Events(t: seq<Event>): set<Event> {
    set e | e in t
  }

  lemma {:induction false} CleanConcat(a: seq<Event>, b: seq<Event>, seen: set<Event>)
    ensures Clean(a + b, seen) <==> Clean(a, seen) && Clean(b, seen + Events(a))
  {
    if a == [] {
      assert a + b == b && seen + Events(a) == seen;
    } else {
      CleanConcat(a[1..], b, seen + {a[0]});
      assert (a + b)[1..] == a[1..] + b;
      assert seen + {a[0]} + Events(a[1..]) == seen + Events(a);
    }
  }

  /** What `seen` says about child `i`. */
  function Strip(i: nat, seen: set<Event>): set<Event> {
    set e | e in seen && |e.p| > 0 && e.p[0] == i :: e.(p := e.p[1..])
  }

  function Down(i: nat, e: Event): Event {
    e.(p := [i] + e.p)
  }

  lemma InStrip(i: nat, seen: set<Event>, e: Event)
    ensures e in Strip(i, seen) <==> Down(i, e) in seen
  {
    assert Down(i, e).p[1..] == e.p;
    if e in Strip(i, seen) {
      var d :| d in seen && |d.p| > 0 && d.p[0] == i && e == d.(p := d.p[1..]);
      assert [i] + d.p[1..] == d.p;
    }
  }

  lemma {:induction false} InUnder(i: nat, t: seq<Event>, e: Event)
    ensures e in Under(i, t) <==> |e.p| > 0 && e.p[0] == i && e.(p := e.p[1..]) in t
  {
    if t != [] {
      InUnder(i, t[1..], e);
      var d := Down(i, t[0]);
      assert d.p[1..] == t[0].p;
      if |e.p| > 0 && e.p[0] == i && e.(p := e.p[1..]) == t[0] {
        assert [i] + e.p[1..] == e.p;
        assert e == d;
      }
      assert e in Under(i, t) <==> e == d || e in Under(i, t[1..]);
      assert e.(p := if |e.p| > 0 then e.p[1..] else []) in t <==>
             e.(p := if |e.p| > 0 then e.p[1..] else []) == t[0] || e.(p := if |e.p| > 0 then e.p[1..] else []) in t[1..];
    }
  }

  /** Events of one child concern only that child. */
  lemma StripUnder(i: nat, j: nat, t: seq<Event>, seen: set<Event>)
    ensures Strip(i, seen + Events(Under(j, t))) == if i == j then Strip(i, seen) + Events(t) else Strip(i, seen)
  {
    forall e ensures e in Strip(i, seen + Events(Under(j, t))) <==> e in Strip(i, seen) || (i == j && e in t) {
      InStrip(i, seen, e);
      InStrip(i, seen + Events(Under(j, t)), e);
      InUnder(j, t, Down(i, e));
      assert Down(i, e).p[1..] == e.p;
    }
  }

  /** Events of the node itself concern no child. */
  lemma StripOwn(i: nat, own: set<Event>, seen: set<Event>)
    requires forall e :: e in own ==> e.p == []
    ensures Strip(i, seen + own) == Strip(i, seen)
  {
  }

  lemma {:induction false} CleanUnder(i: nat, t: seq<Event>, seen: set<Event>)
    ensures Clean(Under(i, t), seen) <==> Clean(t, Strip(i, seen))
  {
    if t != [] {
      var d := Down(i, t[0]);
      CleanUnder(i, t[1..], seen + {d});
      assert Under(i, t)[1..] == Under(i, t[1..]);
      InStrip(i, seen, t[0]);
      InStrip(i, seen, Returned(t[0].p));
      assert Under(i, [t[0]]) == [d];
      StripUnder(i, i, [t[0]], seen);
      assert Events([d]) == {d} && Events([t[0]]) == {t[0]};
    }
  }

  // ---------- Pollable trees ----------

  /** Nothing seen so far forbids polling `n`, nor anything a poll of `n` would reach. */
  ghost predicate Pollable(n: Node, seen: set<Event>)
    decreases n, 1
  {
    && Returned([]) !in seen
    && match n
       case Transform(dep, _) => Called([]) !in seen && Pollable(dep, Strip(0, seen))
       case Chain(_, Some(inner)) => Pollable(inner, Strip(1, seen))
       case Chain(Outer(dep, _), None) =>
         var outer := Strip(0, seen);
         Returned([]) !in outer && Called([]) !in outer && Pollable(dep, Strip(0, outer)) && Strip(1, seen) == {}
       case All(kids, _, _) => KidsPollable(kids, 0, seen)
       case Race(nodes) => RacePollable(nodes, 0, seen)
       case _ => true
  }

  ghost predicate KidsPollable(kids: seq<Kid>, i: nat, seen: set<Event>)
    decreases kids, 0
  {
    kids == [] ||
    (assert kids decreases to kids[0];
     (kids[0].result.None? ==> Pollable(kids[0].node, Strip(i, seen))) && KidsPollable(kids[1..], i + 1, seen))
  }

  ghost predicate RacePollable(nodes: seq<Node>, i: nat, seen: set<Event>)
    decreases nodes, 0
  {
    nodes == [] || (Pollable(nodes[0], Strip(i, seen)) && RacePollable(nodes[1..], i + 1, seen))
  }

  /** `seen` and `seen'` agree on every child from index `i` on. */
  ghost predicate SameBelow(i: nat, seen: set<Event>, seen': set<Event>) {
    forall j: nat :: j >= i ==> Strip(j, seen) == Strip(j, seen')
  }

  lemma {:induction false} KidsPollableFrame(kids: seq<Kid>, i: nat, seen: set<Event>, seen': set<Event>)
    requires KidsPollable(kids, i, seen) && SameBelow(i, seen, seen')
    ensures KidsPollable(kids, i, seen')
  {
    if kids != [] {
      KidsPollableFrame(kids[1..], i + 1, seen, seen');
    }
  }

  lemma {:induction false} RacePollableFrame(nodes: seq<Node>, i: nat, seen: set<Event>, seen': set<Event>)
    requires RacePollable(nodes, i, seen) && SameBelow(i, seen, seen')
    ensures RacePollable(nodes, i, seen')
  {
    if nodes != [] {
      RacePollableFrame(nodes[1..], i + 1, seen, seen');
    }
  }

  /** A tree never polled before is pollable. */
  lemma {:induction false} NewIsPollable(n: Node)
    ensures Pollable(n, {})
    decreases n, 1
  {
    assert Strip(0, {}) == {} && Strip(1, {}) == {};
    match n
    case Transform(dep, _) => NewIsPollable(dep);
    case Chain(_, Some(inner)) => NewIsPollable(inner);
    case Chain(Outer(dep, _), None) => NewIsPollable(dep);
    case All(kids, _, _) => NewKidsArePollable(kids, 0);
    case Race(nodes) => NewNodesArePollable(nodes, 0);
    case _ =>
  }

  lemma {:induction false} NewKidsArePollable(kids: seq<Kid>, i: nat)
    ensures KidsPollable(kids, i, {})
    decreases kids, 0
  {
    if kids != [] {
      assert kids decreases to kids[0];
      assert Strip(i, {}) == {};
      NewIsPollable(kids[0].node);
      NewKidsArePollable(kids[1..], i + 1);
    }
  }

  lemma {:induction false} NewNodesArePollable(nodes: seq<Node>, i: nat)
    ensures RacePollable(nodes, i, {})
    decreases nodes, 0
  {
    if nodes != [] {
      assert Strip(i, {}) == {};
      NewIsPollable(nodes[0]);
      NewNodesArePollable(nodes[1..], i + 1);
    }
  }

  // ---------- One poll ----------

  lemma {:induction false} NotOwn(i: nat, t: seq<Event>)
    ensures forall e :: e in Under(i, t) ==> e.p != [] && e.p[0] == i
  {
    if t != [] {
      NotOwn(i, t[1..]);
    }
  }

  /** A poll is clean if all it does inside is, and it answers for the first time. */
  lemma WithinIsClean(t: seq<Event>, answer: bool, seen: set<Event>)
    requires Clean(t, seen + {Polled([])}) && Returned([]) !in t && Returned([]) !in seen
    ensures Clean(Within(t, answer), seen)
    ensures seen + Events(Within(t, false)) == seen + {Polled([])} + Events(t)
  {
    var tail := if answer then [Returned([])] else [];
    CleanConcat([Polled([])], t, seen);
    CleanConcat([Polled([])] + t, tail, seen);
    assert Events([Polled([])]) == {Polled([])};
    assert seen + Events([Polled([])] + t) == seen + {Polled([])} + Events(t);
    assert Within(t, false) == [Polled([])] + t;
  }

  /** A child's trace followed by the callback, if the child answered. */
  lemma DepThenCall(t: seq<Event>, done: bool, seen: set<Event>)
    requires Clean(t, Strip(0, seen)) && Called([]) !in seen
    ensures var u := Under(0, t) + Call(done);
            && Clean(u, seen) && Returned([]) !in u && (!done ==> Called([]) !in u)
            && Strip(0, seen + Events(u)) == Strip(0, seen) + Events(t)
            && Strip(1, seen + Events(u)) == Strip(1, seen)
            && (Returned([]) !in seen ==> Returned([]) !in seen + Events(u))
  {
    CleanUnder(0, t, seen);
    NotOwn(0, t);
    CleanConcat(Under(0, t), Call(done), seen);
    StripUnder(0, 0, t, seen);
    StripUnder(1, 0, t, seen);
    var called := Events(Call(done));
    assert seen + Events(Under(0, t) + Call(done)) == seen + Events(Under(0, t)) + called;
    StripOwn(0, called, seen + Events(Under(0, t)));
    StripOwn(1, called, seen + Events(Under(0, t)));
  }

  /** Entering the poll of `n` changes nothing below it. */
  lemma Entered(n: Node, seen: set<Event>)
    requires Pollable(n, seen)
    ensures Pollable(n, seen + {Polled([])})
  {
    var seen' := seen + {Polled([])};
    forall j: nat ensures Strip(j, seen) == Strip(j, seen') {
      StripOwn(j, {Polled([])}, seen);
    }
    match n
    case All(kids, _, _) => KidsPollableFrame(kids, 0, seen, seen');
    case Race(nodes) => RacePollableFrame(nodes, 0, seen, seen');
    case _ =>
  }

  /** One poll of a pollable tree breaks no rule and, if it stays pending, leaves a pollable tree. */
  lemma {:induction false} PollIsClean(n: Node, env: Env, seen: set<Event>)
    requires Pollable(n, seen)
    ensures Clean(Trace(n, env), seen)
    ensures Poll(n, env).answer.None? ==> Pollable(Poll(n, env).node, seen + Events(Trace(n, env)))
    decreases n, 3
  {
    Entered(n, seen);
    InsideIsClean(n, env, seen + {Polled([])});
    WithinIsClean(Inside(n, env), Poll(n, env).answer.Some?, seen);
  }

  lemma {:induction false} InsideIsClean(n: Node, env: Env, seen: set<Event>)
    requires Pollable(n, seen)
    ensures Clean(Inside(n, env), seen)
    ensures Returned([]) !in Inside(n, env)
    ensures Poll(n, env).answer.None? ==> Pollable(Poll(n, env).node, seen + Events(Inside(n, env)))
    decreases n, 2
  {
    match n
    case Transform(dep, _) =>
      PollIsClean(dep, env, Strip(0, seen));
      DepThenCall(Trace(dep, env), Poll(dep, env).answer.Some?, seen);
    case Chain(_, Some(inner)) =>
      var t := Trace(inner, env);
      PollIsClean(inner, env, Strip(1, seen));
      CleanUnder(1, t, seen);
      StripUnder(1, 1, t, seen);
      NotOwn(1, t);
    case Chain(o, None) => ChainIsClean(o, env, seen);
    case All(kids, _, _) => KidsAreClean(kids, env, 0, seen);
    case Race(nodes) => RaceIsClean(nodes, env, 0, seen);
    case _ =>
  }

  /** The outer node of a chain, up to its answer. */
  lemma {:induction false} OuterIsClean(dep: Node, env: Env, seen: set<Event>)
    requires Returned([]) !in seen && Called([]) !in seen && Pollable(dep, Strip(0, seen))
    ensures var done := Poll(dep, env).answer.Some?;
            var t := Within(Under(0, Trace(dep, env)) + Call(done), done);
            && Clean(t, seen)
            && (!done ==> Returned([]) !in seen + Events(t) && Called([]) !in seen + Events(t)
                          && Pollable(Poll(dep, env).node, Strip(0, seen + Events(t))))
    decreases dep, 4
  {
    var seen' := seen + {Polled([])};
    var done, t := Poll(dep, env).answer.Some?, Trace(dep, env);
    StripOwn(0, {Polled([])}, seen);
    PollIsClean(dep, env, Strip(0, seen));
    DepThenCall(t, done, seen');
    WithinIsClean(Under(0, t) + Call(done), done, seen);
  }

  /** The outer node's trace followed by that of an inner node never polled before. */
  lemma OuterThenInner(t: seq<Event>, u: seq<Event>, seen: set<Event>)
    requires Clean(t, Strip(0, seen)) && Clean(u, {}) && Strip(1, seen) == {}
    ensures var v := Under(0, t) + Under(1, u);
            && Clean(v, seen) && Returned([]) !in v && Strip(1, seen + Events(v)) == Events(u)
  {
    CleanUnder(0, t, seen);
    StripUnder(1, 0, t, seen);
    CleanUnder(1, u, seen + Events(Under(0, t)));
    CleanConcat(Under(0, t), Under(1, u), seen);
    NotOwn(0, t);
    NotOwn(1, u);
    StripUnder(1, 1, u, seen + Events(Under(0, t)));
    assert seen + Events(Under(0, t) + Under(1, u)) == seen + Events(Under(0, t)) + Events(Under(1, u));
  }

  lemma {:induction false} ChainIsClean(o: Outer, env: Env, seen: set<Event>)
    requires Pollable(Chain(o, None), seen)
    ensures var n := Chain(o, None);
            && Clean(Inside(n, env), seen) && Returned([]) !in Inside(n, env)
            && (Poll(n, env).answer.None? ==> Pollable(Poll(n, env).node, seen + Events(Inside(n, env))))
    decreases o, 1
  {
    var d := Poll(o.dep, env);
    var done := d.answer.Some?;
    var t := Within(Under(0, Trace(o.dep, env)) + Call(done), done);
    OuterIsClean(o.dep, env, Strip(0, seen));
    if !done {
      CleanUnder(0, t, seen);
      NotOwn(0, t);
      StripUnder(0, 0, t, seen);
      StripUnder(1, 0, t, seen);
      assert Inside(Chain(o, None), env) == Under(0, t);
      OuterPending(o.dep, o.fn, env);
    } else {
      var u := Trace(Apply(o.fn, d.answer.value), env);
      InnerIsNew(o, d.answer.value, env);
      OuterThenInner(t, u, seen);
      assert Inside(Chain(o, None), env) == Under(0, t) + Under(1, u);
      OuterDone(o.dep, o.fn, env, d.answer.value);
    }
  }

  lemma {:induction false} InnerIsNew(o: Outer, v: Data, env: Env)
    ensures var n := Apply(o.fn, v);
            Clean(Trace(n, env), {}) && (Poll(n, env).answer.None? ==> Pollable(Poll(n, env).node, Events(Trace(n, env))))
    decreases o, 0
  {
    if v in o.fn {
      NewIsPollable(o.fn[v]);
      PollIsClean(o.fn[v], env, {});
      assert {} + Events(Trace(o.fn[v], env)) == Events(Trace(o.fn[v], env));
    } else {
      WithinIsClean([], false, {});
    }
  }

  lemma StripAbove(i: nat, t: seq<Event>, seen: set<Event>)
    requires forall e :: e in t ==> e.p != [] && e.p[0] > i
    ensures Strip(i, seen + Events(t)) == Strip(i, seen)
  {
  }

  /** After child `i` was polled the later children stand where they stood. */
  lemma LaterKidsUntouched(i: nat, t: seq<Event>, seen: set<Event>)
    ensures SameBelow(i + 1, seen, seen + Events(Under(i, t)))
  {
    forall j: nat | j > i ensures Strip(j, seen) == Strip(j, seen + Events(Under(i, t))) {
      StripUnder(j, i, t, seen);
    }
  }

  /** The trace of child `i` followed by those of later children. */
  lemma KidThenRest(i: nat, t: seq<Event>, rest: seq<Event>, seen: set<Event>)
    requires Clean(t, Strip(i, seen)) && Clean(rest, seen + Events(Under(i, t)))
    requires forall e :: e in rest ==> e.p != [] && e.p[0] > i
    ensures var v := Under(i, t) + rest;
            && Clean(v, seen)
            && (forall e :: e in v ==> e.p != [] && e.p[0] >= i)
            && Strip(i, seen + Events(v)) == Strip(i, seen) + Events(t)
            && seen + Events(v) == seen + Events(Under(i, t)) + Events(rest)
  {
    CleanUnder(i, t, seen);
    NotOwn(i, t);
    CleanConcat(Under(i, t), rest, seen);
    StripUnder(i, i, t, seen);
    StripAbove(i, rest, seen + Events(Under(i, t)));
    assert seen + Events(Under(i, t) + rest) == seen + Events(Under(i, t)) + Events(rest);
  }

  lemma {:induction false} KidsAreClean(kids: seq<Kid>, env: Env, i: nat, seen: set<Event>)
    requires KidsPollable(kids, i, seen)
    ensures var t := TraceKids(kids, env, i);
            && Clean(t, seen)
            && (forall e :: e in t ==> e.p != [] && e.p[0] >= i)
            && KidsPollable(PollKids(kids, env).kids, i, seen + Events(t))
    decreases kids, 0
  {
    if kids != [] {
      var rest := TraceKids(kids[1..], env, i + 1);
      assert PollKids(kids, env).kids[1..] == PollKids(kids[1..], env).kids;
      if kids[0].result.Some? {
        KidsAreClean(kids[1..], env, i + 1, seen);
        assert TraceKids(kids, env, i) == rest;
      } else {
        assert kids decreases to kids[0];
        var t := Trace(kids[0].node, env);
        PollIsClean(kids[0].node, env, Strip(i, seen));
        LaterKidsUntouched(i, t, seen);
        KidsPollableFrame(kids[1..], i + 1, seen, seen + Events(Under(i, t)));
        KidsAreClean(kids[1..], env, i + 1, seen + Events(Under(i, t)));
        KidThenRest(i, t, rest, seen);
        assert TraceKids(kids, env, i) == Under(i, t) + rest;
      }
    }
  }

  lemma {:induction false} RaceIsClean(nodes: seq<Node>, env: Env, i: nat, seen: set<Event>)
    requires RacePollable(nodes, i, seen)
    ensures var t := TraceRace(nodes, env, i);
            && Clean(t, seen)
            && (forall e :: e in t ==> e.p != [] && e.p[0] >= i)
            && (PollRace(nodes, env).answer.None? ==> RacePollable(PollRace(nodes, env).nodes, i, seen + Events(t)))
    decreases nodes, 0
  {
    if nodes != [] {
      var t := Trace(nodes[0], env);
      PollIsClean(nodes[0], env, Strip(i, seen));
      if Poll(nodes[0], env).answer.Some? {
        KidThenRest(i, t, [], seen);
      } else {
        var rest := TraceRace(nodes[1..], env, i + 1);
        assert PollRace(nodes, env).nodes[1..] == PollRace(nodes[1..], env).nodes;
        LaterKidsUntouched(i, t, seen);
        RacePollableFrame(nodes[1..], i + 1, seen, seen + Events(Under(i, t)));
        RaceIsClean(nodes[1..], env, i + 1, seen + Events(Under(i, t)));
        KidThenRest(i, t, rest, seen);
      }
    }
  }

  // ---------- Whole runs ----------

  lemma {:induction false} DriveIsClean(n: Node, envs: seq<Env>, seen: set<Event>)
    requires Pollable(n, seen)
    ensures Clean(DriveTrace(n, envs), seen)
    decreases |envs|
  {
    if envs != [] {
      var t, r := Trace(n, envs[0]), Poll(n, envs[0]);
      PollIsClean(n, envs[0], seen);
      if r.answer.None? {
        DriveIsClean(r.node, envs[1..], seen + Events(t));
        CleanConcat(t, DriveTrace(r.node, envs[1..]), seen);
      } else {
        assert t + [] == t;
      }
    }
  }

  lemma {:induction false} CleanMeans(t: seq<Event>, seen: set<Event>, i: nat, j: nat)
    requires Clean(t, seen) && i < j < |t|
    ensures Allowed(t[j], {t[i]})
    ensures forall e :: e in seen ==> Allowed(t[j], {e}) && Allowed(t[i], {e})
  {
    assert forall e :: e in seen ==> Allowed(t[0], {e});
    if j == 1 {
      assert Allowed(t[1], seen + {t[0]});
    } else if i == 0 {
      CleanMeans(t[1..], seen + {t[0]}, 0, j - 1);
    } else {
      CleanMeans(t[1..], seen + {t[0]}, i - 1, j - 1);
    }
  }

  /**
   For every tree and every schedule, polled up to the root's first some: no node is
   polled, or answers, after it has answered some, and no then-callback runs twice.
   */
  lemma PollContract(n: Node, envs: seq<Env>, i: nat, j: nat)
    requires i < j < |DriveTrace(n, envs)|
    ensures var t := DriveTrace(n, envs);
            && (t[i].Returned? ==> t[j] != Polled(t[i].p) && t[j] != Returned(t[i].p))
            && (t[i].Called? ==> t[j] != Called(t[i].p))
  {
    NewIsPollable(n);
    DriveIsClean(n, envs, {});
    CleanMeans(DriveTrace(n, envs), {}, i, j);
  }

  // ---------- The trace and the poll agree ----------

  function AskedLeaves(t: seq<Event>): seq<nat> {
    if t == [] then [] else (if t[0].Asked? then [t[0].leaf] else []) + AskedLeaves(t[1..])
  }

  lemma {:induction false} AskedConcat(a: seq<Event>, b: seq<Event>)
    ensures AskedLeaves(a + b) == AskedLeaves(a) + AskedLeaves(b)
  {
    if a == [] {
      assert a + b == b;
    } else {
      AskedConcat(a[1..], b);
      assert (a + b)[1..] == a[1..] + b;
    }
  }

  lemma {:induction false} AskedUnder(i: nat, t: seq<Event>)
    ensures AskedLeaves(Under(i, t)) == AskedLeaves(t)
  {
    if t != [] {
      AskedUnder(i, t[1..]);
      assert Under(i, t)[1..] == Under(i, t[1..]);
    }
  }

  lemma AskedWithin(t: seq<Event>, answer: bool)
    ensures AskedLeaves(Within(t, answer)) == AskedLeaves(t)
  {
    var tail := if answer then [Returned([])] else [];
    AskedConcat([Polled([])], t);
    AskedConcat([Polled([])] + t, tail);
    assert AskedLeaves(tail) == [];
  }

  lemma AskedByDep(t: seq<Event>, called: bool)
    ensures AskedLeaves(Under(0, t) + Call(called)) == AskedLeaves(t)
  {
    AskedUnder(0, t);
    AskedConcat(Under(0, t), Call(called));
    assert AskedLeaves(Call(called)) == [];
  }

  /** The leaves a trace asks, in order, are those the poll reports. */
  lemma {:induction false} TraceAsksTheLeaves(n: Node, env: Env)
    ensures AskedLeaves(Trace(n, env)) == Poll(n, env).leaves
    decreases n, 1
  {
    AskedWithin(Inside(n, env), Poll(n, env).answer.Some?);
    match n
    case Leaf(id) =>
      assert AskedLeaves([Asked([], id)]) == [id] + AskedLeaves([]);
    case Transform(dep, _) =>
      TraceAsksTheLeaves(dep, env);
      AskedByDep(Trace(dep, env), Poll(dep, env).answer.Some?);
    case Chain(_, Some(inner)) =>
      TraceAsksTheLeaves(inner, env);
      AskedUnder(1, Trace(inner, env));
    case Chain(o, None) => ChainAsksTheLeaves(o, env);
    case All(kids, _, _) => KidsAskTheLeaves(kids, env, 0);
    case Race(nodes) => RaceAsksTheLeaves(nodes, env, 0);
    case _ =>
  }

  lemma {:induction false} ChainAsksTheLeaves(o: Outer, env: Env)
    ensures AskedLeaves(Inside(Chain(o, None), env)) == Poll(Chain(o, None), env).leaves
    decreases o, 0
  {
    var d := Poll(o.dep, env);
    var t := Under(0, Trace(o.dep, env)) + Call(d.answer.Some?);
    TraceAsksTheLeaves(o.dep, env);
    AskedByDep(Trace(o.dep, env), d.answer.Some?);
    AskedWithin(t, d.answer.Some?);
    AskedUnder(0, Within(t, d.answer.Some?));
    if d.answer.None? {
      OuterPending(o.dep, o.fn, env);
      assert Inside(Chain(o, None), env) == Under(0, Within(t, false));
    } else {
      var v := d.answer.value;
      var u := Trace(Apply(o.fn, v), env);
      OuterDone(o.dep, o.fn, env, v);
      if v in o.fn {
        TraceAsksTheLeaves(o.fn[v], env);
      } else {
        AskedWithin([], false);
      }
      AskedUnder(1, u);
      AskedConcat(Under(0, Within(t, true)), Under(1, u));
      assert Inside(Chain(o, None), env) == Under(0, Within(t, true)) + Under(1, u);
    }
  }

  lemma {:induction false} KidsAskTheLeaves(kids: seq<Kid>, env: Env, i: nat)
    ensures AskedLeaves(TraceKids(kids, env, i)) == PollKids(kids, env).leaves
    decreases kids, 0
  {
    if kids != [] {
      KidsAskTheLeaves(kids[1..], env, i + 1);
      var rest := TraceKids(kids[1..], env, i + 1);
      if kids[0].result.Some? {
        assert TraceKids(kids, env, i) == rest;
      } else {
        assert kids decreases to kids[0];
        TraceAsksTheLeaves(kids[0].node, env);
        AskedUnder(i, Trace(kids[0].node, env));
        AskedConcat(Under(i, Trace(kids[0].node, env)), rest);
      }
    }
  }

  lemma {:induction false} RaceAsksTheLeaves(nodes: seq<Node>, env: Env, i: nat)
    ensures AskedLeaves(TraceRace(nodes, env, i)) == PollRace(nodes, env).leaves
    decreases nodes, 0
  {
    if nodes != [] {
      RaceAsksTheLeaves(nodes[1..], env, i + 1);
      var t := Under(i, Trace(nodes[0], env));
      TraceAsksTheLeaves(nodes[0], env);
      AskedUnder(i, Trace(nodes[0], env));
      AskedConcat(t, TraceRace(nodes[1..], env, i + 1));
      assert t + [] == t;
    }
  }
}
