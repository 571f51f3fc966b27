/** A size-limited max-heap that keeps the smallest items put into it. */
module OrderedArrays {
  import opened Cells

  /** Items compare by key. */
  datatype Item = Item(key: int, payload: nat)

  function Parent(i: nat): nat
    requires i > 0
  {
    (i - 1) / 2
  }

  /** Every item but the one at `hole` is at most its parent, and what lies below the hole is at most
      what lies above it. */
  ghost predicate HeapExcept(a: seq<Item>, hole: nat)
  {
    && (forall i :: 0 < i < |a| && i != hole && Parent(i) != hole ==> a[i].key <= a[Parent(i)].key)
    && (forall i :: 0 < i < |a| && Parent(i) == hole && 0 < hole ==> a[i].key <= a[Parent(hole)].key)
  }

  ghost predicate Heap(a: seq<Item>)
  {
    forall i :: 0 < i < |a| ==> a[i].key <= a[Parent(i)].key
  }

  lemma {:induction false} RootIsMax(a: seq<Item>, i: nat)
    requires Heap(a) && i < |a|
    ensures a[i].key <= a[0].key
  {
    if i > 0 {
      RootIsMax(a, Parent(i));
    }
  }

  function Swap(a: seq<Item>, i: nat, j: nat): (r: seq<Item>)
    requires i < |a| && j < |a|
    ensures |r| == |a| && multiset(r) == multiset(a)
  {
    a[i := a[j]][j := a[i]]
  }

  /** container/heap's up. */
  method Up(a: seq<Item>, start: nat) returns (r: seq<Item>)
    requires start < |a| && HeapExcept(a, start)
    requires forall i :: 0 < i < |a| && Parent(i) == start ==> a[i].key <= a[start].key
    ensures Heap(r) && multiset(r) == multiset(a)
  {
    r := a;
    var j: nat := start;
    while j > 0 && r[j].key > r[Parent(j)].key
      invariant j < |r| == |a| && multiset(r) == multiset(a)
      invariant HeapExcept(r, j)
      invariant forall i :: 0 < i < |r| && Parent(i) == j ==> r[i].key <= r[j].key
      decreases j
    {
      r := Swap(r, Parent(j), j);
      j := Parent(j);
    }
  }

  lemma DownStep(a: seq<Item>, i: nat, j: nat)
    requires 0 < j < |a| && Parent(j) == i && HeapExcept(a, i)
    requires i > 0 ==> a[i].key <= a[Parent(i)].key
    requires forall k :: 0 < k < |a| && Parent(k) == i ==> a[k].key <= a[j].key
    requires a[i].key < a[j].key
    ensures HeapExcept(Swap(a, i, j), j) && Swap(a, i, j)[j].key <= Swap(a, i, j)[i].key
  {
    assert forall k :: 0 < k < |a| ==> Parent(k) < k;
  }

  /** The larger child, the left one on a tie. */
  function LargerChild(a: seq<Item>, i: nat): (j: nat)
    requires 2 * i + 1 < |a|
    ensures 0 < j < |a| && Parent(j) == i
    ensures forall k :: 0 < k < |a| && Parent(k) == i ==> a[k].key <= a[j].key
  {
    var j := 2 * i + 1;
    assert forall k :: 0 < k < |a| && Parent(k) == i ==> k == j || k == j + 1;
    if j + 1 < |a| && a[j + 1].key > a[j].key then j + 1 else j
  }

  lemma DownDone(a: seq<Item>, i: nat)
    requires i < |a| && HeapExcept(a, i)
    requires i > 0 ==> a[i].key <= a[Parent(i)].key
    requires 2 * i + 1 < |a| ==> a[LargerChild(a, i)].key <= a[i].key
    ensures Heap(a)
  {
    if 2 * i + 1 >= |a| {
      assert forall k :: 0 < k < |a| ==> Parent(k) != i;
    }
  }

  /** container/heap's down; moved tells whether the item left its place. */
  method Down(a: seq<Item>, start: nat) returns (r: seq<Item>, moved: bool)
    requires start < |a| && HeapExcept(a, start)
    requires start > 0 ==> a[start].key <= a[Parent(start)].key
    ensures Heap(r) && multiset(r) == multiset(a)
    ensures !moved ==> r == a
  {
    r := a;
    var i: nat := start;
    while 2 * i + 1 < |r| && r[LargerChild(r, i)].key > r[i].key
      invariant start <= i < |r| == |a| && multiset(r) == multiset(a)
      invariant HeapExcept(r, i)
      invariant i > 0 ==> r[i].key <= r[Parent(i)].key
      invariant i == start ==> r == a
    {
      var j := LargerChild(r, i);
      DownStep(r, i, j);
      r := Swap(r, i, j);
      i := j;
    }
    DownDone(r, i);
    moved := i > start;
  }

  /** container/heap's Push. */
  method Push(a: seq<Item>, x: Item) returns (r: seq<Item>)
    requires Heap(a)
    ensures Heap(r) && multiset(r) == multiset(a) + multiset{x}
  {
    r := Up(a + [x], |a|);
  }

  /** The root is overwritten and container/heap's Fix called on it. */
  method ReplaceRoot(a: seq<Item>, x: Item) returns (r: seq<Item>)
    requires Heap(a) && a != []
    ensures Heap(r) && multiset(r) == multiset(a) - multiset{a[0]} + multiset{x}
  {
    assert multiset(a[0 := x]) == multiset(a) - multiset{a[0]} + multiset{x};
    var moved;
    r, moved := Down(a[0 := x], 0);
    if !moved {
      r := Up(r, 0);
    }
  }

  lemma RootBoundsAll(a: seq<Item>)
    requires Heap(a) && a != []
    ensures forall y :: y in multiset(a) ==> y.key <= a[0].key
  {
    forall y | y in multiset(a)
      ensures y.key <= a[0].key
    {
      var i :| 0 <= i < |a| && a[i] == y;
      RootIsMax(a, i);
    }
  }

  // ---- the smallest items ----

  function Bound(capacity: nat, n: nat): nat
  {
    if capacity == 0 || n <= capacity then n else capacity
  }

  /** kept is a choice of the `capacity` smallest of `all` (of all of them when capacity is 0). */
  ghost predicate Smallest(kept: multiset<Item>, all: multiset<Item>, capacity: nat)
  {
    && kept <= all && |kept| == Bound(capacity, |all|)
    && forall x, y :: x in kept && y in all - kept ==> x.key <= y.key
  }

  ghost predicate Ascending(a: seq<Item>)
  {
    forall i, j :: 0 <= i < j < |a| ==> a[i].key <= a[j].key
  }

  function InsertSorted(x: Item, a: seq<Item>): seq<Item>
  {
    if |a| == 0 || x.key <= a[0].key then [x] + a else [a[0]] + InsertSorted(x, a[1..])
  }

  /** Stands for Go's sort.Sort, which promises an ordered permutation. */
  function Sort(a: seq<Item>): seq<Item>
  {
    if |a| == 0 then [] else InsertSorted(a[0], Sort(a[1..]))
  }

  lemma {:induction false} InsertSortedKeeps(x: Item, a: seq<Item>)
    ensures multiset(InsertSorted(x, a)) == multiset(a) + multiset{x}
  {
    if |a| > 0 {
      InsertSortedKeeps(x, a[1..]);
      assert a == [a[0]] + a[1..];
    }
  }

  lemma {:induction false} InsertSortedOrders(x: Item, a: seq<Item>)
    requires Ascending(a)
    ensures Ascending(InsertSorted(x, a))
  {
    if |a| > 0 && x.key > a[0].key {
      var rest := InsertSorted(x, a[1..]);
      InsertSortedOrders(x, a[1..]);
      InsertSortedKeeps(x, a[1..]);
      forall i | 0 <= i < |rest|
        ensures a[0].key <= rest[i].key
      {
        assert rest[i] in multiset(rest);
        assert rest[i] == x || rest[i] in a[1..];
      }
    }
  }

  /** An ordered permutation. */
  lemma {:induction false} SortIs(a: seq<Item>)
    ensures Ascending(Sort(a)) && multiset(Sort(a)) == multiset(a)
  {
    if |a| > 0 {
      SortIs(a[1..]);
      InsertSortedKeeps(a[0], Sort(a[1..]));
      InsertSortedOrders(a[0], Sort(a[1..]));
      assert a == [a[0]] + a[1..];
    }
  }

  lemma KeepRoot(kept: multiset<Item>, all: multiset<Item>, capacity: nat, root: Item, x: Item)
    requires Smallest(kept, all, capacity) && 0 < capacity <= |kept|
    requires root in kept && forall y :: y in kept ==> y.key <= root.key
    ensures root.key <= x.key ==> Smallest(kept, all + multiset{x}, capacity)
    ensures root.key > x.key ==> Smallest(kept - multiset{root} + multiset{x}, all + multiset{x}, capacity)
  {
    if root.key > x.key {
      var now := kept - multiset{root} + multiset{x};
      assert all + multiset{x} - now == all - kept + multiset{root};
    } else {
      assert all + multiset{x} - kept == all - kept + multiset{x};
    }
  }

  lemma KeepAll(kept: multiset<Item>, all: multiset<Item>, capacity: nat, x: Item)
    requires Smallest(kept, all, capacity) && (capacity == 0 || |kept| < capacity)
    ensures Smallest(kept + multiset{x}, all + multiset{x}, capacity)
  {
    assert |all - kept| == 0;
    assert kept == all;
  }

  class OrderedArray {
    var items: seq<Item>
    const capacity: nat

    ghost predicate Valid()
      reads this
    {
      Heap(items)
    }

    constructor (capacity: nat)
      ensures Valid() && items == [] && this.capacity == capacity
    {
      items, this.capacity := [], capacity;
    }

    /** all stands for every item put since the array was last emptied. */
    method Put(item: Item, ghost all: multiset<Item>)
      requires Valid() && Smallest(multiset(items), all, capacity)
      modifies this
      ensures Valid() && Smallest(multiset(items), all + multiset{item}, capacity)
    {
      if capacity > 0 && |items| >= capacity {
        RootBoundsAll(items);
        KeepRoot(multiset(items), all, capacity, items[0], item);
        if items[0].key > item.key {
          items := ReplaceRoot(items, item);
        }
      } else {
        KeepAll(multiset(items), all, capacity, item);
        items := Push(items, item);
      }
    }

    /** All kept items in ascending order; the array is empty afterwards. */
    method Finalize() returns (r: seq<Item>)
      requires Valid()
      modifies this
      ensures Ascending(r) && multiset(r) == multiset(old(items))
      ensures Valid() && items == []
    {
      SortIs(items);
      r := Sort(items);
      items := [];
    }
  }
}
