/**
 The timer heap of the event loop: `MinHeap.Heap` over timer structs, whose key is the
 deadline and whose recorded slot is `heap_idx`. Seen from outside it is a map from the
 structs in it to their deadlines.
 */
module TimerQueue {
  import opened MinHeap

  class Queue {
    const heap: Heap
    var elems: map<nat, Elem>
    ghost var due: map<nat, nat>       // the structs in the heap and their deadlines
    ghost var repr: set<object>

    ghost predicate Valid()
      reads this, repr
      ensures Valid() ==> this in repr
    {
      && this in repr && heap in repr && repr == {this, heap, heap.data} + heap.elems
      && heap.Heaped() && elems.Keys == due.Keys
      && (forall id :: id in elems ==> elems[id] in heap.elems && elems[id].id == id && elems[id].key == due[id])
      && (forall e :: e in heap.elems ==> e.id in elems && elems[e.id] == e)
    }

    constructor ()
      ensures Valid() && fresh(repr) && due == map[]
    {
      heap := new Heap(0);
      elems := map[];
      due := map[];
      new;
      repr := {this, heap, heap.data};
    }

    method IsEmpty() returns (empty: bool)
      requires Valid()
      ensures empty <==> due == map[]
    {
      var top := heap.Peek();
      empty := top == null;
      if !empty {
        assert top.id in due;
      } else {
        assert due.Keys == {};
      }
    }

    /** xHeapPush */
    method Insert(id: nat, deadline: nat)
      requires Valid() && id !in due
      modifies repr
      ensures Valid() && fresh(repr - old(repr)) && due == old(due)[id := deadline]
    {
      hide Heap.Heaped;
      var e := new Elem(id, deadline);
      heap.Push(e);
      elems := elems[id := e];
      due := due[id := deadline];
      repr := {this, heap, heap.data} + heap.elems;
    }

    /** xHeapPeek: a struct with the earliest deadline. */
    method First() returns (id: nat)
      requires Valid() && due != map[]
      ensures id in due && forall i :: i in due ==> due[id] <= due[i]
    {
      var top := heap.Peek();
      assert top != null by {
        var i :| i in due.Keys;
        assert elems[i] in heap.elems;
      }
      id := top.id;
      forall i | i in due ensures due[id] <= due[i] {
        assert elems[i] in heap.elems;
      }
    }

    /** What is left to do once the struct is out of the heap. */
    method Forget(id: nat)
      requires heap.Heaped() && elems.Keys == due.Keys && id in elems
      requires forall i :: i in elems ==> elems[i].id == i && elems[i].key == due[i] && (elems[i] in heap.elems <==> i != id)
      requires forall e :: e in heap.elems ==> e.id in elems && elems[e.id] == e
      modifies this
      ensures Valid() && due == old(due) - {id} && repr == {this, heap, heap.data} + heap.elems
    {
      hide Heap.Heaped;
      elems := elems - {id};
      due := due - {id};
      repr := {this, heap, heap.data} + heap.elems;
    }

    /** xHeapPop of the struct that xHeapPeek shows. */
    method Pop() returns (id: nat)
      requires Valid() && due != map[]
      modifies repr
      ensures Valid() && fresh(repr - old(repr)) && id in old(due) && due == old(due) - {id}
      ensures forall i :: i in old(due) ==> old(due)[id] <= old(due)[i]
    {
      hide Heap.Heaped;
      assert exists i :: i in due.Keys;
      ghost var some :| some in due.Keys;
      assert elems[some] in heap.elems;
      var top := heap.Pop();
      id := top.id;
      forall i | i in due ensures due[id] <= due[i] {
        assert elems[i] in old(heap.elems);
      }
      Forget(id);
    }

    /** xHeapRemove by the recorded slot. */
    method Remove(id: nat)
      requires Valid() && id in due
      modifies repr
      ensures Valid() && fresh(repr - old(repr)) && due == old(due) - {id}
    {
      hide Heap.Heaped;
      var e := elems[id];
      heap.SlotOf(e);
      var gone := heap.Remove(e.idx);
      Forget(id);
    }
  }
}
