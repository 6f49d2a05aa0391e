/**
 Which leaves a tree keeps asking. A leaf that a poll found pending is asked again by the next
 poll, as long as no `race` stands above it; a `race` that is won gives its other leaves up
 while the tree around it may go on.
 */
module PromiseAsks {
  import opened Common
  import opened PromiseTree

  /** No `race` anywhere, also in trees not yet built. */
  ghost predicate RaceFree(n: Node) {
    match n
    case Transform(dep, _) => RaceFree(dep)
    case Chain(Outer(dep, fn), inner) =>
      && RaceFree(dep)
      && (forall v :: v in fn ==> RaceFree(fn[v]))
      && (inner.Some? ==> RaceFree(inner.value))
    case All(kids, _, _) => forall i :: 0 <= i < |kids| ==> RaceFree(kids[i].node)
    case Race(_) => false
    case _ => true
  }

  /** A pending leaf keeps the tree pending and is asked again. */
  lemma {:induction false} PendingIsAskedAgain(n: Node, env: Env, next: Env, id: nat)
    requires WellFormed(n) && RaceFree(n) && id in Poll(n, env).leaves && env(id).None?
    ensures Poll(n, env).answer.None? && id in Poll(Poll(n, env).node, next).leaves
    decreases n, 1
  {
    match n
    case Transform(dep, _) => PendingIsAskedAgain(dep, env, next, id);
    case Chain(_, Some(inner)) => PendingIsAskedAgain(inner, env, next, id);
    case Chain(Outer(dep, fn), None) =>
      var d := Poll(dep, env);
      if id in d.leaves {
        PendingIsAskedAgain(dep, env, next, id);
      } else {
        PendingIsAskedAgain(fn[d.answer.value], env, next, id);
      }
    case All(kids, _, _) =>
      KidsAreAskedAgain(kids, env, next, id);
      KidsKeepWellFormed(kids, env);
    case _ =>
  }

  lemma {:induction false} KidsAreAskedAgain(kids: seq<Kid>, env: Env, next: Env, id: nat)
    requires forall j :: 0 <= j < |kids| ==> WellFormed(kids[j].node) && RaceFree(kids[j].node)
    requires id in PollKids(kids, env).leaves && env(id).None?
    ensures var after := PollKids(kids, env).kids; Unfinished(after) > 0 && id in PollKids(after, next).leaves
    decreases kids, 0
  {
    var rest := PollKids(kids[1..], env);
    var after := PollKids(kids, env).kids;
    assert after[1..] == rest.kids;
    assert kids decreases to kids[0];
    if kids[0].result.None? && id in Poll(kids[0].node, env).leaves {
      PendingIsAskedAgain(kids[0].node, env, next, id);
    } else {
      KidsAreAskedAgain(kids[1..], env, next, id);
    }
  }

  /** All of a race and a third leaf: the race is won by its first leaf, the second is given up, and the tree stays pending. */
  lemma RaceGivesUp(a: nat, b: nat, c: nat, v: Data)
    requires a != b && b != c && a != c
    ensures var n := AllOf([Race([Leaf(a), Leaf(b)]), Leaf(c)], false);
            var env: Env, next: Env := (id: nat) => None, (id: nat) => if id == a then Some(v) else None;
            var once := Poll(n, env);
            var twice := Poll(once.node, next);
            && WellFormed(n) && once.answer.None? && b in once.leaves && env(b).None?
            && twice.answer.None? && b !in twice.leaves
  {
    var race, leaf := Race([Leaf(a), Leaf(b)]), Leaf(c);
    var env: Env, next: Env := (id: nat) => None, (id: nat) => if id == a then Some(v) else None;
    AllOfWellFormed([race, leaf], false);
    TwoKids(race, leaf);
    RaceOnce(a, b, env);
    RaceTwice(a, b, next, v);
    TwoPolled(Kid(race, None), Kid(leaf, None), env);
    TwoPolled(Kid(race, None), Kid(leaf, None), next);
  }

  lemma TwoKids(n: Node, m: Node)
    ensures AllOf([n, m], false) == All([Kid(n, None), Kid(m, None)], 2, false)
  {
    FreshUnfinished([n, m]);
    assert Fresh([n, m]) == [Kid(n, None), Kid(m, None)];
  }

  lemma OneRaces(n: Node, rest: seq<Node>, env: Env)
    ensures var h, r := Poll(n, env), PollRace(rest, env);
            PollRace([n] + rest, env) ==
            if h.answer.Some? then RacePolling(h.answer, [h.node] + rest, h.leaves)
            else RacePolling(r.answer, [h.node] + r.nodes, h.leaves + r.leaves)
  {
    assert ([n] + rest)[1..] == rest;
  }

  lemma RaceOnce(a: nat, b: nat, env: Env)
    requires env(a).None? && env(b).None?
    ensures Poll(Race([Leaf(a), Leaf(b)]), env) == Polling(None, Race([Leaf(a), Leaf(b)]), [a, b])
  {
    OneRaces(Leaf(a), [Leaf(b)], env);
    OneRaces(Leaf(b), [], env);
    assert [Leaf(a)] + [Leaf(b)] == [Leaf(a), Leaf(b)] && [Leaf(b)] + [] == [Leaf(b)];
    assert [a] + ([b] + []) == [a, b];
  }

  lemma RaceTwice(a: nat, b: nat, env: Env, v: Data)
    requires env(a) == Some(v)
    ensures Poll(Race([Leaf(a), Leaf(b)]), env) == Polling(Some(v), Race([Leaf(a), Leaf(b)]), [a])
  {
    OneRaces(Leaf(a), [Leaf(b)], env);
    assert [Leaf(a)] + [Leaf(b)] == [Leaf(a), Leaf(b)];
  }

  lemma OneKid(k: Kid, rest: seq<Kid>, env: Env)
    requires k.result.None?
    ensures var h, r := Poll(k.node, env), PollKids(rest, env);
            PollKids([k] + rest, env) ==
            KidsPolling([Kid(h.node, h.answer)] + r.kids, r.done + (if h.answer.Some? then 1 else 0), h.leaves + r.leaves)
  {
    assert ([k] + rest)[1..] == rest;
  }

  lemma TwoPolled(k: Kid, m: Kid, env: Env)
    requires k.result.None? && m.result.None?
    ensures var p, q := Poll(k.node, env), Poll(m.node, env);
            PollKids([k, m], env) == KidsPolling([Kid(p.node, p.answer), Kid(q.node, q.answer)],
                                                 (if p.answer.Some? then 1 else 0) + (if q.answer.Some? then 1 else 0),
                                                 p.leaves + q.leaves)
  {
    OneKid(k, [m], env);
    OneKid(m, [], env);
    assert [k] + [m] == [k, m] && [m] + [] == [m];
    assert Poll(m.node, env).leaves + [] == Poll(m.node, env).leaves;
  }
}
