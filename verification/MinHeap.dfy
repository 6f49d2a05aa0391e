/**
 The binary min-heap of heap.c, in place on an array of elements that each record
 their own slot. `Near`, `Above` and `Below` say where the order may be broken while
 an element is on its way; sifting up and then down repairs a single defect whichever
 way it points, which is what removal and update from the middle rely on.
 */
module MinHeap {

  // ---------- Order, on the sequence of keys ----------

  function Parent(k: nat): nat {
    if k == 0 then 0 else (k - 1) / 2
  }

  predicate Edge(ks: seq<int>, k: nat)
    requires k < |ks|
  {
    Parent(k) < |ks| && ks[Parent(k)] <= ks[k]
  }

  predicate Ordered(ks: seq<int>) {
    forall k: nat :: k < |ks| ==> Edge(ks, k)
  }

  /** The children of `i` are in order with the parent of `i`. */
  predicate Bridged(ks: seq<int>, i: nat)
    requires i < |ks|
  {
    forall k: nat :: 0 < k < |ks| && Parent(k) == i ==> ks[Parent(i)] <= ks[k] || i == 0
  }

  /** Only the element at `i` may be out of place, in either direction. */
  predicate Near(ks: seq<int>, i: nat)
    requires i < |ks|
  {
    Bridged(ks, i) && forall k: nat :: k < |ks| && k != i && (k > 0 ==> Parent(k) != i) ==> Edge(ks, k)
  }

  /** Only the edge from `i` to its parent may be broken. */
  predicate Above(ks: seq<int>, i: nat)
    requires i < |ks|
  {
    Bridged(ks, i) && forall k: nat :: k < |ks| && k != i ==> Edge(ks, k)
  }

  /** Only the edges from `i` to its children may be broken. */
  predicate Below(ks: seq<int>, i: nat)
    requires i < |ks|
  {
    Near(ks, i) && Edge(ks, i)
  }

  function Swapped<T>(s: seq<T>, i: nat, j: nat): (r: seq<T>)
    requires i < |s| && j < |s|
    ensures |r| == |s| && forall k :: 0 <= k < |s| ==> r[k] == if k == i then s[j] else if k == j then s[i] else s[k]
  {
    s[i := s[j]][j := s[i]]
  }

  /** An element smaller than its parent changes places with it. */
  lemma UpStep(ks: seq<int>, i: nat)
    requires 0 < i < |ks| && Near(ks, i) && ks[i] < ks[Parent(i)]
    ensures Above(Swapped(ks, i, Parent(i)), Parent(i)) && Near(Swapped(ks, i, Parent(i)), Parent(i))
  {
    var p := Parent(i);
    var after := Swapped(ks, i, p);
    assert Edge(ks, p);
    forall k: nat | k < |ks| && k != p ensures Edge(after, k) {
      assert k != i && Parent(k) != i ==> Edge(ks, k);
    }
    forall k: nat | 0 < k < |ks| && Parent(k) == p ensures after[Parent(p)] <= after[k] || p == 0 {
      assert k != i ==> Edge(ks, k);
    }
  }

  /** An element larger than a child changes places with its smaller child. */
  lemma DownStep(ks: seq<int>, i: nat, c: nat)
    requires i < c < |ks| && Parent(c) == i && Below(ks, i) && ks[c] < ks[i]
    requires forall k: nat :: 0 < k < |ks| && Parent(k) == i ==> ks[c] <= ks[k]
    ensures Below(Swapped(ks, i, c), c)
  {
    var after := Swapped(ks, i, c);
    forall k: nat | k < |ks| && (k > 0 ==> Parent(k) != c) ensures Edge(after, k) {
      assert k != i && Parent(k) != i ==> Edge(ks, k);
    }
    forall k: nat | 0 < k < |ks| && Parent(k) == c ensures after[Parent(c)] <= after[k] {
      assert Edge(ks, k);
    }
  }

  /** The element that started at `i0` has stopped at `i`. */
  lemma Settled(ks: seq<int>, i: nat, i0: nat)
    requires i < |ks| && i0 < |ks| && (if i == i0 then Near(ks, i) else Above(ks, i))
    requires i == 0 || ks[Parent(i)] <= ks[i]
    ensures Below(ks, i0)
  {
    if i != i0 {
      OrderedIsBelow(ks);
    }
  }

  lemma OrderedIsBelow(ks: seq<int>)
    requires Ordered(ks)
    ensures forall i: nat :: i < |ks| ==> Below(ks, i)
  {
    forall i: nat | i < |ks| ensures Below(ks, i) {
      forall k: nat | 0 < k < |ks| && Parent(k) == i ensures ks[Parent(i)] <= ks[k] {
        assert Edge(ks, k) && Edge(ks, i);
      }
    }
  }

  /** Changing one key of an ordered heap leaves at most that element out of place. */
  lemma OneKeyChanged(ks: seq<int>, i: nat, key: int)
    requires i < |ks| && Ordered(ks)
    ensures Near(ks[i := key], i)
  {
    OrderedIsBelow(ks);
    var after := ks[i := key];
    forall k: nat | k < |ks| && k != i && (k > 0 ==> Parent(k) != i) ensures Edge(after, k) {
      assert Edge(ks, k);
    }
    forall k: nat | 0 < k < |ks| && Parent(k) == i ensures after[Parent(i)] <= after[k] || i == 0 {
      assert Below(ks, i) && Bridged(ks, i);
    }
  }

  /** Dropping the last element keeps the rest in order. */
  lemma WithoutLast(ks: seq<int>)
    requires |ks| > 0 && Ordered(ks)
    ensures Ordered(ks[..|ks| - 1])
  {
    var rest := ks[..|ks| - 1];
    forall k: nat | k < |rest| ensures Edge(rest, k) {
      assert Edge(ks, k);
    }
  }

  /** The root of an ordered heap is a minimum. */
  lemma {:induction false} RootIsLeast(ks: seq<int>, k: nat)
    requires Ordered(ks) && k < |ks|
    ensures ks[0] <= ks[k]
  {
    if k > 0 {
      RootIsLeast(ks, Parent(k));
      assert Edge(ks, k);
    }
  }

  lemma Children(ks: seq<int>, i: nat, smallest: nat)
    requires i < |ks| && smallest < |ks| && Below(ks, i)
    requires smallest == i || smallest == 2 * i + 1 || smallest == 2 * i + 2
    requires ks[smallest] <= ks[i]
    requires 2 * i + 1 < |ks| ==> ks[smallest] <= ks[2 * i + 1]
    requires 2 * i + 2 < |ks| ==> ks[smallest] <= ks[2 * i + 2]
    ensures forall k: nat :: 0 < k < |ks| && Parent(k) == i ==> ks[smallest] <= ks[k]
    ensures smallest == i ==> Ordered(ks)
  {
    forall k: nat | 0 < k < |ks| && Parent(k) == i ensures ks[smallest] <= ks[k] {
      assert k == 2 * i + 1 || k == 2 * i + 2;
    }
  }

  lemma Appended(ks: seq<int>, key: int)
    requires Ordered(ks)
    ensures Near(ks + [key], |ks|)
  {
    var after := ks + [key];
    forall k: nat | k < |ks| ensures Edge(after, k) {
      assert Edge(ks, k);
    }
  }

  lemma LastHasNoChildren(ks: seq<int>)
    requires |ks| > 0 && Below(ks, |ks| - 1)
    ensures Ordered(ks)
  {
  }

  // ---------- The heap ----------

  /** An element: what it stands for, the key the comparison looks at, and its recorded slot. */
  class Elem {
    const id: nat
    var key: int
    var idx: int

    constructor (id: nat, key: int)
      ensures this.id == id && this.key == key
    {
      this.id := id;
      this.key := key;
      idx := -1;
    }
  }

  class Heap {
    var data: array<Elem?>
    var size: nat
    ghost var elems: set<Elem>

    /** The first `size` slots hold exactly the elements of the heap, each knowing its slot. */
    ghost predicate Valid()
      reads this, data, elems
    {
      && 0 < data.Length && size <= data.Length
      && (forall i :: 0 <= i < size ==> data[i] != null && data[i] in elems && data[i].idx == i)
      && (forall e :: e in elems ==> 0 <= e.idx < size && data[e.idx] == e)
    }

    ghost function Keys(): (ks: seq<int>)
      requires Valid()
      reads this, data, elems
      ensures |ks| == size && forall i :: 0 <= i < size ==> ks[i] == data[i].key
    {
      seq(size, i requires 0 <= i < size && Valid() reads this, data, elems => data[i].key)
    }

    ghost predicate Heaped()
      reads this, data, elems
    {
      Valid() && Ordered(Keys())
    }

    constructor (cap: nat)
      ensures Heaped() && fresh(data) && elems == {}
    {
      data := new Elem?[if cap > 0 then cap else 16];
      size := 0;
      elems := {};
    }

    method Swap(i: nat, j: nat)
      requires Valid() && i < size && j < size
      modifies data, elems`idx
      ensures Valid() && Keys() == Swapped(old(Keys()), i, j)
    {
      hide Keys;
      var tmp := data[i];
      data[i] := data[j];
      data[j] := tmp;
      data[i].idx := i;
      data[j].idx := j;
    }

    /** Afterwards at most the element now at `i0` is larger than its children. */
    method SiftUp(i0: nat)
      requires Valid() && i0 < size && Near(Keys(), i0)
      modifies data, elems`idx
      ensures Valid() && Below(Keys(), i0)
    {
      hide Keys, Near, Above, Below;
      var i: nat := i0;
      while i > 0
        invariant i < size && Valid() && Near(Keys(), i) && (i != i0 ==> Above(Keys(), i))
      {
        var parent := (i - 1) / 2;
        if data[i].key >= data[parent].key {
          break;
        }
        UpStep(Keys(), i);
        Swap(i, parent);
        i := parent;
      }
      Settled(Keys(), i, i0);
    }

    method SiftDown(i0: nat)
      requires Valid() && i0 < size && Below(Keys(), i0)
      modifies data, elems`idx
      ensures Heaped()
    {
      hide Keys, Below, Ordered;
      var i: nat := i0;
      while true
        invariant i < size && Valid() && Below(Keys(), i)
        decreases size - i
      {
        var smallest := i;
        var left, right := 2 * i + 1, 2 * i + 2;
        if left < size && data[left].key < data[smallest].key {
          smallest := left;
        }
        if right < size && data[right].key < data[smallest].key {
          smallest := right;
        }
        Children(Keys(), i, smallest);
        if smallest == i {
          break;
        }
        DownStep(Keys(), i, smallest);
        Swap(i, smallest);
        i := smallest;
      }
    }

    method Push(e: Elem)
      requires Heaped() && e !in elems
      modifies this, data, elems`idx, e`idx
      ensures Heaped() && elems == old(elems) + {e} && (data == old(data) || fresh(data))
    {
      hide Keys, Near, Below, Ordered;
      EnsureCap();
      ghost var ks := Keys();
      data[size] := e;
      e.idx := size;
      elems := elems + {e};
      size := size + 1;
      assert Keys() == ks + [e.key];
      Appended(ks, e.key);
      SiftUp(size - 1);
      LastHasNoChildren(Keys());
    }

    /** Doubles the array when it is full. */
    method EnsureCap()
      requires Valid()
      modifies this`data
      ensures Valid() && size < data.Length && (data == old(data) || fresh(data)) && Keys() == old(Keys())
    {
      hide Keys;
      if size == data.Length {
        var bigger := new Elem?[2 * data.Length];
        forall i | 0 <= i < size {
          bigger[i] := data[i];
        }
        data := bigger;
      }
    }

    /** The recorded slot names the element. */
    lemma SlotOf(e: Elem)
      requires Heaped() && e in elems
      ensures 0 <= e.idx < size && forall f :: f in elems && f.idx == e.idx ==> f == e
    {
    }

    lemma FirstIsLeast()
      requires Heaped() && size > 0
      ensures forall e :: e in elems ==> data[0].key <= e.key
    {
      forall e | e in elems ensures data[0].key <= e.key {
        RootIsLeast(Keys(), e.idx);
      }
    }

    method Peek() returns (r: Elem?)
      requires Heaped()
      ensures r == null <==> elems == {}
      ensures r != null ==> r in elems && forall e :: e in elems ==> r.key <= e.key
    {
      if size == 0 {
        return null;
      }
      r := data[0];
      FirstIsLeast();
    }

    method Pop() returns (r: Elem?)
      requires Heaped()
      modifies this, data, elems`idx
      ensures Heaped() && data == old(data) && (r == null <==> old(elems) == {})
      ensures r == null ==> elems == old(elems)
      ensures r != null ==> r in old(elems) && elems == old(elems) - {r} && forall e :: e in old(elems) ==> r.key <= e.key
    {
      hide Keys;
      if size == 0 {
        return null;
      }
      r := data[0];
      FirstIsLeast();
      TakeOut(0);
      if size > 0 {
        SiftDown(0);
      }
    }

    /** Any element can be taken out by its recorded slot. */
    method Remove(idx: nat) returns (r: Elem?)
      requires Heaped()
      modifies this, data, elems`idx
      ensures Heaped() && data == old(data) && (r == null <==> idx >= old(size))
      ensures r == null ==> elems == old(elems)
      ensures r != null ==> r in old(elems) && old(r.idx) == idx && elems == old(elems) - {r}
    {
      hide Keys;
      if idx >= size {
        return null;
      }
      r := data[idx];
      TakeOut(idx);
      if idx < size {
        SiftUp(idx);
        SiftDown(idx);
      }
    }

    /** The last element moves to slot `idx`, and the heap is one shorter. */
    method TakeOut(idx: nat)
      requires Heaped() && idx < size
      modifies this`size, this`elems, data, elems`idx
      ensures Valid() && size == old(size) - 1 && elems == old(elems) - {old(data[idx])}
      ensures if idx < size then Near(Keys(), idx) else Heaped()
    {
      hide Keys;
      ghost var ks := Keys();
      WithoutLast(ks);
      size := size - 1;
      elems := elems - {data[idx]};
      if idx == size {
        assert Keys() == ks[..size];
        return;
      }
      data[idx] := data[size];
      data[idx].idx := idx;
      OneKeyChanged(ks[..size], idx, ks[size]);
      assert Keys() == ks[..size][idx := ks[size]];
    }

    /** Puts the element at `idx` right after its key was changed. */
    method Update(idx: nat) returns (ok: bool)
      requires Valid() && (if idx < size then Near(Keys(), idx) else Heaped())
      modifies data, elems`idx
      ensures Heaped() && (ok <==> idx < size)
    {
      hide Keys;
      if idx >= size {
        return false;
      }
      SiftUp(idx);
      SiftDown(idx);
      return true;
    }
  }
}
