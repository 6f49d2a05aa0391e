/**
 Where the nodes of a promise chain live. The first node is allocated on the heap; each
 `then` appends a node to its predecessor's arena, opens a new arena, or falls back to
 the heap when the arena is full. A header before each node names its arena and says
 whether the node is to free it; that duty moves along to the arena's last node.

 Destroying the tail destroys its predecessors first, from inside its own destructor.
 */
module NodeArena {
  import opened Common
  import Positional

  const HEADER: nat := 16          // kPromiseNodeHeaderSize, also its alignment
  const CAPACITY: nat := 256       // Arena<256>

  datatype Arena = Arena(base: nat, pos: nat)

  /** A node with its header; `addr` is where the header starts and `size` the size of the node after it. */
  datatype Node = Node(arena: Option<nat>, owns: bool, addr: nat, size: nat)

  // ---------- The bump allocator ----------

  predicate Aligned(p: nat) {
    p % 16 == 0
  }

  /** (p + align - 1) & ~(align - 1): what is left after the low bits are cleared. */
  function AlignUp(p: nat, align: nat): (q: nat)
    requires align > 0
    ensures q % align == 0 && p <= q < p + align
  {
    var up := p + align - 1;
    Positional.Quotient(align, up / align, 0);
    up / align * align
  }

  /** Arena::allocate, with the address it returns or None. */
  function Bump(a: Arena, size: nat): Option<nat> {
    var p := AlignUp(a.pos, 16);
    if p + size > a.base + CAPACITY then None else Some(p)
  }

  /** A fresh arena turns down exactly the nodes that are too large for any arena. */
  lemma FreshArenaFits(base: nat, size: nat)
    requires Aligned(base)
    ensures Bump(Arena(base, base), HEADER + size) == if HEADER + size <= CAPACITY then Some(base) else None
  {
  }

  // ---------- Layout and ownership ----------

  /** Inside its arena a node is aligned, within the bytes handed out, and clear of the nodes before it. */
  ghost predicate LaidOut(nodes: seq<Node>, arenas: seq<Arena>) {
    && (forall a :: 0 <= a < |arenas| ==> Aligned(arenas[a].base) && arenas[a].base <= arenas[a].pos <= arenas[a].base + CAPACITY)
    && (forall i :: 0 <= i < |nodes| && nodes[i].arena.Some? ==>
          && nodes[i].arena.value < |arenas| && Aligned(nodes[i].addr)
          && arenas[nodes[i].arena.value].base <= nodes[i].addr
          && nodes[i].addr + HEADER + nodes[i].size <= arenas[nodes[i].arena.value].pos)
    && (forall i, j :: 0 <= i < j < |nodes| && nodes[i].arena.Some? && nodes[i].arena == nodes[j].arena ==>
          nodes[i].addr + HEADER + nodes[i].size <= nodes[j].addr)
  }

  /** Each arena has one owner, the last of its nodes, at `last[a]`. */
  ghost predicate Owned(nodes: seq<Node>, arenas: seq<Arena>, last: seq<nat>) {
    && |last| == |arenas|
    && (forall a :: 0 <= a < |last| ==> last[a] < |nodes| && nodes[last[a]].arena == Some(a))
    && (forall i :: 0 <= i < |nodes| && nodes[i].arena.Some? ==>
          nodes[i].arena.value < |last| && i <= last[nodes[i].arena.value])
    && (forall i :: 0 <= i < |nodes| ==>
          (nodes[i].owns <==> nodes[i].arena.Some? && nodes[i].arena.value < |last| && i == last[nodes[i].arena.value]))
  }

  predicate AllZero(s: seq<nat>) {
    forall i :: 0 <= i < |s| ==> s[i] == 0
  }

  lemma OneMoreZero(s: seq<nat>)
    requires AllZero(s)
    ensures AllZero(s + [0])
  {
  }

  /** One more node; those before it stay where they are. */
  predicate Extends(nodes: seq<Node>, more: seq<Node>, size: nat) {
    && |more| == |nodes| + 1 && more[|nodes|].size == size
    && forall i :: 0 <= i < |nodes| ==> more[i] == nodes[i].(owns := more[i].owns)
  }

  // ---------- One more node ----------

  function InArena(nodes: seq<Node>, a: nat, addr: nat, size: nat): seq<Node>
    requires nodes != []
  {
    var p := |nodes| - 1;
    nodes[p := nodes[p].(owns := false)] + [Node(Some(a), true, addr, size)]
  }

  lemma TailArena(nodes: seq<Node>, arenas: seq<Arena>, last: seq<nat>)
    requires nodes != [] && Owned(nodes, arenas, last)
    ensures var arena := nodes[|nodes| - 1].arena; arena.Some? ==> arena.value < |arenas| == |last|
  {
  }

  lemma InArenaIsLaidOut(nodes: seq<Node>, arenas: seq<Arena>, a: nat, addr: nat, size: nat)
    requires LaidOut(nodes, arenas) && nodes != [] && a < |arenas| && Bump(arenas[a], HEADER + size) == Some(addr)
    ensures Extends(nodes, InArena(nodes, a, addr, size), size)
    ensures LaidOut(InArena(nodes, a, addr, size), arenas[a := arenas[a].(pos := addr + HEADER + size)])
  {
    var nodes', arenas' := InArena(nodes, a, addr, size), arenas[a := arenas[a].(pos := addr + HEADER + size)];
    assert forall i :: 0 <= i < |nodes| ==> nodes'[i].arena == nodes[i].arena && nodes'[i].addr == nodes[i].addr && nodes'[i].size == nodes[i].size;
    assert forall b :: 0 <= b < |arenas| ==> arenas'[b].base == arenas[b].base && arenas[b].pos <= arenas'[b].pos;
  }

  lemma InArenaIsOwned(nodes: seq<Node>, arenas: seq<Arena>, last: seq<nat>, a: nat, addr: nat, size: nat, pos: nat)
    requires Owned(nodes, arenas, last) && nodes != [] && nodes[|nodes| - 1].arena == Some(a) && a < |last|
    ensures Owned(InArena(nodes, a, addr, size), arenas[a := arenas[a].(pos := pos)], last[a := |nodes|])
  {
    var nodes', last' := InArena(nodes, a, addr, size), last[a := |nodes|];
    assert forall i :: 0 <= i < |nodes| ==> nodes'[i].arena == nodes[i].arena;
    assert last[a] == |nodes| - 1;
  }

  lemma OnHeapFits(nodes: seq<Node>, arenas: seq<Arena>, last: seq<nat>, addr: nat, size: nat)
    requires LaidOut(nodes, arenas) && Owned(nodes, arenas, last)
    ensures var nodes' := nodes + [Node(None, false, addr, size)];
            Extends(nodes, nodes', size) && LaidOut(nodes', arenas) && Owned(nodes', arenas, last)
  {
  }

  lemma InNewArenaFits(nodes: seq<Node>, arenas: seq<Arena>, last: seq<nat>, mem: nat, size: nat)
    requires LaidOut(nodes, arenas) && Owned(nodes, arenas, last) && Aligned(mem) && HEADER + size <= CAPACITY
    ensures var nodes' := nodes + [Node(Some(|arenas|), true, mem, size)];
            var arenas' := arenas + [Arena(mem, mem + HEADER + size)];
            Extends(nodes, nodes', size) && LaidOut(nodes', arenas') && Owned(nodes', arenas', last + [|nodes|])
  {
  }

  class Chain {
    var nodes: seq<Node>
    var arenas: seq<Arena>
    var arenaFrees: seq<nat>      // how often each arena was deleted
    var blockFrees: seq<nat>      // how often each node's own heap block was deleted
    ghost var last: seq<nat>

    ghost predicate Shape()
      reads this
    {
      && nodes != [] && |arenaFrees| == |arenas| && |blockFrees| == |nodes|
      && LaidOut(nodes, arenas) && Owned(nodes, arenas, last)
    }

    /** The memory of node `i`, header included, has not been freed. */
    ghost predicate Live(i: nat)
      requires Shape() && i < |nodes|
      reads this
    {
      if nodes[i].arena.Some? then arenaFrees[nodes[i].arena.value] == 0 else blockFrees[i] == 0
    }

    ghost predicate Valid()
      reads this
    {
      && Shape()
      && AllZero(arenaFrees) && AllZero(blockFrees)
    }

    /** promise::allocate at heap address `mem`. */
    constructor Allocate(size: nat, mem: nat)
      ensures Valid() && nodes == [Node(None, false, mem, size)] && arenas == []
    {
      nodes, arenas, arenaFrees, blockFrees, last := [Node(None, false, mem, size)], [], [], [0], [];
    }

    /**
     promise::append to the tail. `mem` is where the heap puts a block or a new arena. The
     new arena's allocation is not checked: `ok` is false where the source goes on with a
     null pointer, which is exactly when a node too large for any arena opens one.
     */
    method Append(size: nat, mem: nat) returns (ok: bool)
      requires Valid() && Aligned(mem)
      modifies this
      ensures Valid() && (ok <==> old(nodes)[|old(nodes)| - 1].arena.Some? || HEADER + size <= CAPACITY)
      ensures if ok then Extends(old(nodes), nodes, size) else nodes == old(nodes) && arenas == old(arenas)
    {
      hide LaidOut, Owned, Extends, AllZero, Bump;
      var n, p := |nodes|, |nodes| - 1;
      var arena := nodes[p].arena;
      TailArena(nodes, arenas, last);
      OneMoreZero(arenaFrees);
      OneMoreZero(blockFrees);
      if arena.Some? {
        var a := arena.value;
        var room := Bump(arenas[a], HEADER + size);
        if room.Some? {
          InArenaIsLaidOut(nodes, arenas, a, room.value, size);
          InArenaIsOwned(nodes, arenas, last, a, room.value, size, room.value + HEADER + size);
          nodes := nodes[p := nodes[p].(owns := false)] + [Node(arena, true, room.value, size)];
          arenas := arenas[a := arenas[a].(pos := room.value + HEADER + size)];
          last := last[a := n];
        } else {
          OnHeapFits(nodes, arenas, last, mem, size);
          nodes := nodes + [Node(None, false, mem, size)];
        }
      } else {
        FreshArenaFits(mem, size);
        var room := Bump(Arena(mem, mem), HEADER + size);
        if room.None? {
          return false;
        }
        InNewArenaFits(nodes, arenas, last, mem, size);
        nodes := nodes + [Node(Some(|arenas|), true, room.value, size)];
        arenas := arenas + [Arena(mem, room.value + HEADER + size)];
        arenaFrees := arenaFrees + [0];
        last := last + [n];
      }
      blockFrees := blockFrees + [0];
      ok := true;
    }

    // ---------- Destruction ----------

    /** What is freed once the nodes up to `n` exclusive are gone: their blocks, and the arenas that end among them. */
    ghost predicate FreedBelow(n: int)
      requires Shape()
      reads this
    {
      && (forall a :: 0 <= a < |arenas| ==> arenaFrees[a] == if last[a] < n then 1 else 0)
      && (forall i :: 0 <= i < |nodes| ==> blockFrees[i] == if i < n && nodes[i].arena.None? then 1 else 0)
    }

    /** The destructor of node `i` touches its memory. */
    method Touch(i: nat)
      requires Shape() && i < |nodes| && Live(i)
    {
    }

    /**
     destroy_and_dealloc of node `i`: its destructor destroys the predecessor and then the
     remaining members, and only afterwards its memory is given back.
     */
    method Destroy(i: nat)
      requires Shape() && i < |nodes| && FreedBelow(0)
      modifies this`arenaFrees, this`blockFrees
      ensures Shape() && FreedBelow(i + 1)
    {
      Touch(i);
      if i > 0 {
        Destroy(i - 1);
      }
      Touch(i);
      Deallocate(i);
    }

    /** PromiseNodeAllocator::deallocate, which reads the header before it deletes anything. */
    method Deallocate(i: nat)
      requires Shape() && i < |nodes| && Live(i) && FreedBelow(i)
      modifies this`arenaFrees, this`blockFrees
      ensures Shape() && FreedBelow(i + 1)
    {
      hide LaidOut;
      var arena, owns := nodes[i].arena, nodes[i].owns;
      if owns {
        arenaFrees := arenaFrees[arena.value := arenaFrees[arena.value] + 1];
      }
      if arena.None? {
        blockFrees := blockFrees[i := blockFrees[i] + 1];
      }
    }

    /** Destroying the tail frees each arena and each heap block exactly once, and nothing else. */
    method DestroyTail()
      requires Valid()
      modifies this`arenaFrees, this`blockFrees
      ensures Shape()
      ensures forall a :: 0 <= a < |arenas| ==> arenaFrees[a] == 1
      ensures forall i :: 0 <= i < |nodes| ==> blockFrees[i] == if nodes[i].arena.None? then 1 else 0
    {
      Destroy(|nodes| - 1);
    }
  }
}
