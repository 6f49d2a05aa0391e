/**
 The laws of `then`, poll by poll. Two trees are interchangeable when, under every
 schedule, each poll gives the same answer and asks the same leaves in the same
 order: `Watch` records exactly that.
 */
module PromiseLaws {
  import opened Common
  import opened PromiseTree

  /** Once the outer promise is done, a chain node is its inner promise. */
  lemma {:induction false} InnerIsTransparent(o: Outer, n: Node, envs: seq<Env>)
    ensures Watch(Chain(o, Some(n)), envs) == Watch(n, envs)
    decreases |envs|
  {
    if envs != [] {
      InnerIsTransparent(o, Poll(n, envs[0]).node, envs[1..]);
    }
  }

  /** `x => f(x).then(g)`. */
  ghost function Compose(f: Callback, g: Callback): Callback {
    imap x: Data {:trigger Apply(f, x)} :: ThenFlat(Apply(f, x), g)
  }

  /** Associativity once `p` is done and `q`, which f returned, is pending. */
  lemma {:induction false} AssociativeInside(o: Outer, q: Node, g: Callback, envs: seq<Env>)
    ensures Watch(ThenFlat(Chain(o, Some(q)), g), envs) == Watch(ThenFlat(q, g), envs)
    decreases |envs|
  {
    if envs != [] {
      var env, lhs, r := envs[0], Chain(o, Some(q)), Poll(q, envs[0]);
      assert Poll(lhs, env).answer == r.answer && Poll(lhs, env).node == Chain(o, Some(r.node));
      match r.answer
      case None =>
        AssociativeInside(o, r.node, g, envs[1..]);
      case Some(v) =>
        var s := Poll(Apply(g, v), env).node;
        InnerIsTransparent(Outer(Poll(lhs, env).node, g), s, envs[1..]);
        InnerIsTransparent(Outer(r.node, g), s, envs[1..]);
    }
  }

  /** The polls after the one at which `p` resolves. */
  lemma AssociativeAfterOuter(p: Node, f: Callback, g: Callback, env: Env, v: Data, envs: seq<Env>)
    requires Poll(p, env).answer == Some(v)
    ensures Watch(Poll(ThenFlat(ThenFlat(p, f), g), env).node, envs) == Watch(Poll(ThenFlat(p, Compose(f, g)), env).node, envs)
  {
    var d, q, h := Poll(p, env), Apply(f, v), Compose(f, g);
    var r := Poll(q, env);
    var lhs := Chain(Outer(d.node, f), Some(r.node));
    assert Poll(ThenFlat(p, f), env).answer == r.answer && Poll(ThenFlat(p, f), env).node == lhs;
    InnerIsTransparent(Outer(d.node, h), Poll(ThenFlat(q, g), env).node, envs);
    match r.answer
    case None =>
      AssociativeInside(Outer(d.node, f), r.node, g, envs);
    case Some(y) =>
      var s := Poll(Apply(g, y), env).node;
      InnerIsTransparent(Outer(lhs, g), s, envs);
      InnerIsTransparent(Outer(r.node, g), s, envs);
  }

  /** `p.then(f).then(g)` is `p.then(x => f(x).then(g))` for promise-returning f and g. */
  lemma {:induction false} ThenIsAssociative(p: Node, f: Callback, g: Callback, envs: seq<Env>)
    ensures Watch(ThenFlat(ThenFlat(p, f), g), envs) == Watch(ThenFlat(p, Compose(f, g)), envs)
    decreases |envs|
  {
    if envs != [] {
      var env, d := envs[0], Poll(p, envs[0]);
      match d.answer
      case None =>
        OuterPending(p, f, env);
        OuterPending(ThenFlat(p, f), g, env);
        OuterPending(p, Compose(f, g), env);
        ThenIsAssociative(d.node, f, g, envs[1..]);
      case Some(v) =>
        AssociativeAtOuter(p, f, g, env, v);
        AssociativeAfterOuter(p, f, g, env, v, envs[1..]);
    }
  }

  /** The poll at which `p` resolves looks the same on both sides. */
  lemma AssociativeAtOuter(p: Node, f: Callback, g: Callback, env: Env, v: Data)
    requires Poll(p, env).answer == Some(v)
    ensures See(ThenFlat(ThenFlat(p, f), g), env) == See(ThenFlat(p, Compose(f, g)), env)
  {
    var d, q := Poll(p, env), Apply(f, v);
    var r := Poll(q, env);
    OuterDone(p, f, env, v);
    OuterDone(p, Compose(f, g), env, v);
    match r.answer
    case None =>
      OuterPending(ThenFlat(p, f), g, env);
      OuterPending(q, g, env);
    case Some(y) =>
      OuterDone(ThenFlat(p, f), g, env, y);
      OuterDone(q, g, env, y);
      var s := Poll(Apply(g, y), env);
      assert (d.leaves + r.leaves) + s.leaves == d.leaves + (r.leaves + s.leaves);
  }

  /** `resolve(v).then(f)` is `f(v)`. */
  lemma LeftIdentity(v: Data, f: Callback, envs: seq<Env>)
    ensures Watch(ThenFlat(Immediate(v), f), envs) == Watch(Apply(f, v), envs)
  {
    if envs != [] {
      var r := Poll(Apply(f, v), envs[0]);
      OuterDone(Immediate(v), f, envs[0], v);
      assert [] + r.leaves == r.leaves;
      InnerIsTransparent(Outer(Immediate(v), f), r.node, envs[1..]);
    }
  }

  ghost function Resolve(): Callback {
    imap x: Data :: Immediate(x)
  }

  /** `p.then(resolve)` is `p`. */
  lemma {:induction false} RightIdentity(p: Node, envs: seq<Env>)
    ensures Watch(ThenFlat(p, Resolve()), envs) == Watch(p, envs)
    decreases |envs|
  {
    if envs != [] {
      var d := Poll(p, envs[0]);
      if d.answer.Some? {
        OuterDone(p, Resolve(), envs[0], d.answer.value);
        assert d.leaves + [] == d.leaves;
      } else {
        OuterPending(p, Resolve(), envs[0]);
        RightIdentity(d.node, envs[1..]);
      }
    }
  }

  /** Plain callbacks fuse: `p.then(f).then(g)` is `p.then(x => g(f(x)))`. */
  lemma {:induction false} PlainCallbacksFuse(p: Node, f: Data -> Data, g: Data -> Data, envs: seq<Env>)
    ensures Watch(Then(Then(p, f), g), envs) == Watch(Then(p, x => g(f(x))), envs)
    decreases |envs|
  {
    if envs != [] {
      var d := Poll(p, envs[0]);
      assert Poll(Then(p, f), envs[0]).node == Then(d.node, f);
      PlainCallbacksFuse(d.node, f, g, envs[1..]);
    }
  }
}
