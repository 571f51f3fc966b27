/** The per-store range index: a btree of cells ordered by descending start key. */
module CellTrees {
  import opened Keys
  import opened Cells

  /** The btree's order: `Less` compares start keys reversely, and no two items share a start. */
  ghost predicate Ordered(items: seq<Cell>)
  {
    forall i, j :: 0 <= i < j < |items| ==> Lt(items[j].start, items[i].start)
  }

  ghost function Elems(items: seq<Cell>): set<Cell>
  {
    set c | c in items
  }

  /** btree.Delete: drops the item with the given start key. */
  function Delete(items: seq<Cell>, start: Key): (r: seq<Cell>)
    requires Ordered(items)
    ensures Ordered(r)
    ensures forall c :: c in r <==> c in items && c.start != start
  {
    OrderLaws();
    if |items| == 0 then []
    else if items[0].start == start then items[1..]
    else [items[0]] + Delete(items[1..], start)
  }

  /** btree.ReplaceOrInsert */
  function Insert(items: seq<Cell>, cell: Cell): (r: seq<Cell>)
    requires Ordered(items)
    ensures Ordered(r)
    ensures forall c :: c in r <==> c == cell || (c in items && c.start != cell.start)
  {
    OrderLaws();
    if |items| == 0 then [cell]
    else if items[0].start == cell.start then [cell] + items[1..]
    else if Lt(items[0].start, cell.start) then [cell] + items
    else [items[0]] + Insert(items[1..], cell)
  }

  lemma StartUnique(items: seq<Cell>, a: Cell, b: Cell)
    requires Ordered(items) && a in items && b in items && a.start == b.start
    ensures a == b
  {
    OrderLaws();
  }

  // ---- what the tree does, whatever ranges are in it ----

  /** The cell with the largest start at or below the key. */
  ghost predicate Floor(s: set<Cell>, key: Key, c: Cell)
  {
    c in s && Le(c.start, key) && forall d :: d in s && Le(d.start, key) ==> Le(d.start, c.start)
  }

  /** The cell that a lookup of the key finds: only the nearest start counts. */
  ghost predicate Found(s: set<Cell>, key: Key, c: Cell)
  {
    Floor(s, key, c) && Contains(c, key)
  }

  /** The cell is passed by the scan of Update: from the found one on, up to the end of the new range. */
  ghost predicate Scanned(s: set<Cell>, cell: Cell, c: Cell)
  {
    !Before(cell, c) && (Le(cell.start, c.start) || Found(s, cell.start, c))
  }

  ghost function TreeUpdate(s: set<Cell>, cell: Cell): set<Cell>
  {
    (set c | c in s && !Scanned(s, cell, c) && c.start != cell.start) + {cell}
  }

  ghost function TreeRemove(s: set<Cell>, cell: Cell): set<Cell>
  {
    set c | c in s && !(Found(s, cell.start, c) && c.id == cell.id)
  }

  datatype Op = Update(cell: Cell) | Remove(cell: Cell)

  ghost function TreeRun(s: set<Cell>, ops: seq<Op>): set<Cell>
  {
    if |ops| == 0 then s
    else
      var t := TreeRun(s, ops[..|ops| - 1]);
      match ops[|ops| - 1]
      case Update(c) => TreeUpdate(t, c)
      case Remove(c) => TreeRemove(t, c)
  }

  // ---- ranges that may be empty ----

  /** The start is not above the end. */
  predicate WellFormed(c: Cell)
  {
    |c.end| == 0 || Le(c.start, c.end)
  }

  /** One of the two holds the other's start, or they share it. For nonempty ranges this is overlap. */
  predicate Touches(a: Cell, b: Cell)
  {
    Contains(a, b.start) || Contains(b, a.start) || a.start == b.start
  }

  ghost predicate Tidy(s: set<Cell>)
  {
    && (forall c :: c in s ==> WellFormed(c))
    && (forall a, b :: a in s && b in s && a != b ==> !Touches(a, b))
  }

  ghost function TidyUpdate(s: set<Cell>, cell: Cell): set<Cell>
  {
    (set c | c in s && !Touches(c, cell)) + {cell}
  }

  /** In a tidy set a lookup finds exactly the cell that holds the key. */
  lemma FoundIsOwner(s: set<Cell>, key: Key, c: Cell)
    requires Tidy(s) && c in s
    ensures Found(s, key, c) <==> Contains(c, key)
  {
    OrderLaws();
    if Contains(c, key) {
      forall d | d in s && Le(d.start, key)
        ensures Le(d.start, c.start)
      {
        assert d != c ==> !Touches(c, d);
      }
    }
  }

  lemma ScannedIsTouched(s: set<Cell>, cell: Cell, c: Cell)
    requires Tidy(s) && WellFormed(cell) && c in s
    ensures Scanned(s, cell, c) || c.start == cell.start <==> Touches(c, cell)
  {
    OrderLaws();
    FoundIsOwner(s, cell.start, c);
  }

  /** Update takes out exactly the cells the new range touches, and the set stays tidy, if and only if the
      new range is well formed. */
  lemma TidyIff(s: set<Cell>, cell: Cell)
    requires Tidy(s)
    ensures WellFormed(cell) ==> TreeUpdate(s, cell) == TidyUpdate(s, cell)
    ensures Tidy(TreeUpdate(s, cell)) <==> WellFormed(cell)
  {
    if WellFormed(cell) {
      forall c | c in s
        ensures c in TreeUpdate(s, cell) <==> c in TidyUpdate(s, cell)
      {
        ScannedIsTouched(s, cell, c);
      }
    } else {
      assert cell in TreeUpdate(s, cell);
    }
  }

  lemma TidyRemove(s: set<Cell>, cell: Cell)
    requires Tidy(s)
    ensures TreeRemove(s, cell) == AbsRemove(s, cell) && Tidy(TreeRemove(s, cell))
  {
    forall c | c in s
      ensures Found(s, cell.start, c) <==> Contains(c, cell.start)
    {
      FoundIsOwner(s, cell.start, c);
    }
  }

  /** A cell with an empty range takes the cell that holds its start out of the tree, and nothing else. */
  lemma EmptyHidesOwner(s: set<Cell>, cell: Cell, c: Cell)
    requires Tidy(s) && c in s && |cell.end| > 0 && cell.start == cell.end
    ensures c == cell || (c !in TreeUpdate(s, cell) <==> Contains(c, cell.start) || c.start == cell.start)
  {
    OrderLaws();
    TidyIff(s, cell);
  }

  /** A key that is found in a cell stays found there if and only if the new range does not touch the cell. */
  lemma StaysFoundIff(s: set<Cell>, cell: Cell, key: Key, c: Cell)
    requires Tidy(s) && WellFormed(cell) && Found(s, key, c) && c != cell
    ensures Found(TreeUpdate(s, cell), key, c) <==> !Touches(c, cell)
  {
    TidyIff(s, cell);
    if !Touches(c, cell) {
      FoundIsOwner(TreeUpdate(s, cell), key, c);
    }
  }

  // ---- nonempty ranges: a plain set of disjoint ranges ----

  ghost predicate Disjoint(s: set<Cell>)
  {
    && (forall c :: c in s ==> NonEmpty(c))
    && (forall a, b :: a in s && b in s && a != b ==> !Overlap(a, b))
  }

  /** Plain-set meaning of Update: the overlapping ranges go, the new one comes. */
  ghost function AbsUpdate(s: set<Cell>, cell: Cell): set<Cell>
  {
    (set c | c in s && !Overlap(c, cell)) + {cell}
  }

  /** Plain-set meaning of Remove: the range holding cell.start goes if it has cell's id. */
  ghost function AbsRemove(s: set<Cell>, cell: Cell): set<Cell>
  {
    set c | c in s && !(Contains(c, cell.start) && c.id == cell.id)
  }

  ghost function AbsRun(s: set<Cell>, ops: seq<Op>): set<Cell>
  {
    if |ops| == 0 then s
    else
      var t := AbsRun(s, ops[..|ops| - 1]);
      match ops[|ops| - 1]
      case Update(c) => AbsUpdate(t, c)
      case Remove(c) => AbsRemove(t, c)
  }

  lemma TouchesIsOverlap(a: Cell, b: Cell)
    requires NonEmpty(a) && NonEmpty(b)
    ensures Touches(a, b) <==> Overlap(a, b)
  {
    OrderLaws();
    OverlapIffNotBefore(a, b);
  }

  lemma DisjointIsTidy(s: set<Cell>)
    ensures Disjoint(s) <==> Tidy(s) && forall c :: c in s ==> NonEmpty(c)
  {
    OrderLaws();
    forall a, b | a in s && b in s && NonEmpty(a) && NonEmpty(b)
      ensures Touches(a, b) <==> Overlap(a, b)
    {
      TouchesIsOverlap(a, b);
    }
  }

  /** Two distinct ranges of a disjoint set do not both contain a key. */
  lemma OwnerUnique(s: set<Cell>, a: Cell, b: Cell, key: Key)
    requires Disjoint(s) && a in s && b in s && Contains(a, key) && Contains(b, key)
    ensures a == b
  {
    if a != b {
      assert Overlap(a, b);
    }
  }

  /** On nonempty disjoint ranges Update takes out exactly the overlapping ones. */
  lemma UpdateIsAbs(s: set<Cell>, cell: Cell)
    requires Disjoint(s) && NonEmpty(cell)
    ensures TreeUpdate(s, cell) == AbsUpdate(s, cell) && Disjoint(TreeUpdate(s, cell))
  {
    OrderLaws();
    DisjointIsTidy(s);
    TidyIff(s, cell);
    forall c | c in s
      ensures Touches(c, cell) <==> Overlap(c, cell)
    {
      TouchesIsOverlap(c, cell);
    }
    DisjointIsTidy(TreeUpdate(s, cell));
  }

  lemma RemoveIsAbs(s: set<Cell>, cell: Cell)
    requires Disjoint(s)
    ensures TreeRemove(s, cell) == AbsRemove(s, cell) && Disjoint(TreeRemove(s, cell))
  {
    DisjointIsTidy(s);
    TidyRemove(s, cell);
  }

  /** Any sequence of operations on nonempty ranges acts as on a plain set of disjoint ranges. */
  lemma {:induction false} RunIsAbs(s: set<Cell>, ops: seq<Op>)
    requires Disjoint(s) && forall i :: 0 <= i < |ops| && ops[i].Update? ==> NonEmpty(ops[i].cell)
    ensures TreeRun(s, ops) == AbsRun(s, ops) && Disjoint(TreeRun(s, ops))
  {
    if |ops| > 0 {
      var n := |ops| - 1;
      RunIsAbs(s, ops[..n]);
      match ops[n]
      case Update(c) => UpdateIsAbs(TreeRun(s, ops[..n]), c);
      case Remove(c) => RemoveIsAbs(TreeRun(s, ops[..n]), c);
    }
  }

  /** On disjoint ranges a lookup finds the unique range containing the key, or there is none. */
  lemma FoundIsUnique(s: set<Cell>, key: Key, c: Cell)
    requires Disjoint(s)
    ensures Found(s, key, c) <==> c in s && Contains(c, key)
  {
    DisjointIsTidy(s);
    if c in s {
      FoundIsOwner(s, key, c);
    }
  }

  const EMPTY_CELL := Cell(0, [], [], Epoch(0, 0), [])

  class CellTree {
    var items: seq<Cell>

    ghost predicate Valid()
      reads this
    {
      Ordered(items)
    }

    ghost function View(): set<Cell>
      reads this
    {
      Elems(items)
    }

    constructor ()
      ensures items == [] && Valid()
    {
      items := [];
    }

    /** AscendGreaterOrEqual from the key, first hit only, then the containment test. */
    method Find(key: Key) returns (r: Option<Cell>)
      requires Valid()
      ensures r.Some? ==> Found(View(), key, r.value)
      ensures r.None? ==> forall c :: !Found(View(), key, c)
    {
      var i := 0;
      while i < |items| && Lt(key, items[i].start)
        invariant 0 <= i <= |items|
        invariant forall j :: 0 <= j < i ==> Lt(key, items[j].start)
      {
        i := i + 1;
      }
      OrderLaws();
      if i < |items| && Contains(items[i], key) {
        return Some(items[i]);
      }
      forall c
        ensures !Found(View(), key, c)
      {
        if Floor(View(), key, c) {
          var j :| 0 <= j < |items| && items[j] == c;
          assert items[i] in View();
        }
      }
      return None;
    }

    /** The items that Update deletes, in ascending key order. */
    method Overlapping(cell: Cell) returns (overlaps: seq<Cell>)
      requires Valid()
      ensures forall c :: c in overlaps <==> c in View() && Scanned(View(), cell, c)
    {
      var result := Find(cell.start);
      var pivot := if result.Some? then result.value.start else cell.start;

      // DescendLessOrEqual(pivot) skips the items that start below the pivot
      var i := |items| - 1;
      while i >= 0 && Lt(items[i].start, pivot)
        invariant -1 <= i < |items|
        invariant forall j :: i < j < |items| ==> Lt(items[j].start, pivot)
      {
        i := i - 1;
      }
      ghost var first := i;
      assert View() == Elems(items);
      overlaps := [];
      while i >= 0 && !(|cell.end| > 0 && Le(cell.end, items[i].start))
        invariant -1 <= i <= first
        invariant |overlaps| == first - i
        invariant forall j :: 0 <= j < |overlaps| ==> overlaps[j] == items[first - j]
        invariant forall j :: i < j <= first ==> !Before(cell, items[j])
      {
        overlaps := overlaps + [items[i]];
        i := i - 1;
      }
      forall c
        ensures c in overlaps <==> c in View() && Scanned(View(), cell, c)
      {
        if c in items {
          var k :| 0 <= k < |items| && items[k] == c;
          PivotScans(items, cell, result, c);
          OrderLaws();
          assert i < k <= first ==> overlaps[first - k] == c;
        }
      }
    }

    method Update(cell: Cell)
      requires Valid()
      modifies this
      ensures Valid()
      ensures View() == TreeUpdate(old(View()), cell)
    {
      ghost var s := View();
      var overlaps := Overlapping(cell);
      assert forall c :: c in overlaps <==> c in s && Scanned(s, cell, c);
      var m := 0;
      while m < |overlaps|
        invariant 0 <= m <= |overlaps|
        invariant Ordered(items)
        invariant forall c :: c in items <==> c in old(items) && forall j :: 0 <= j < m ==> overlaps[j].start != c.start
      {
        items := Delete(items, overlaps[m].start);
        m := m + 1;
      }
      forall c
        ensures c in items <==> c in s && !Scanned(s, cell, c)
      {
        if c in s && c !in items {
          var j :| 0 <= j < |overlaps| && overlaps[j].start == c.start;
          assert overlaps[j] in overlaps;
          StartUnique(old(items), overlaps[j], c);
        }
        if c in overlaps {
          var j :| 0 <= j < |overlaps| && overlaps[j] == c;
          assert c !in items;
        }
      }
      items := Insert(items, cell);
      assert View() == TreeUpdate(s, cell);
    }

    method Remove(cell: Cell) returns (found: bool)
      requires Valid()
      modifies this
      ensures Valid()
      ensures View() == TreeRemove(old(View()), cell)
      ensures found <==> exists c :: Found(old(View()), cell.start, c) && c.id == cell.id
    {
      var result := Find(cell.start);
      forall c | result.Some? && Found(View(), cell.start, c)
        ensures c == result.value
      {
        OrderLaws();
        StartUnique(items, c, result.value);
      }
      if result.None? || result.value.id != cell.id {
        assert View() == TreeRemove(View(), cell);
        return false;
      }
      forall c | c in items && c.start == result.value.start
        ensures c == result.value
      {
        StartUnique(items, c, result.value);
      }
      items := Delete(items, result.value.start);
      assert View() == TreeRemove(old(View()), cell);
      return true;
    }

    /** The cell found for the key, or the zero cell. */
    method Search(key: Key) returns (r: Cell)
      requires Valid()
      ensures Found(View(), key, r) || (r == EMPTY_CELL && forall c :: !Found(View(), key, c))
      ensures forall c :: Found(View(), key, c) ==> r == c
    {
      var result := Find(key);
      if result.None? {
        return EMPTY_CELL;
      }
      forall c | Found(View(), key, c)
        ensures c == result.value
      {
        OrderLaws();
        StartUnique(items, c, result.value);
      }
      return result.value;
    }

    /** The cell with the smallest start key above the given one. */
    method NextCell(start: Key) returns (r: Option<Cell>)
      requires Valid()
      ensures r.None? ==> forall c :: c in View() ==> Le(c.start, start)
      ensures r.Some? ==> r.value in View() && Lt(start, r.value.start)
      ensures r.Some? ==> forall c :: c in View() && Lt(start, c.start) ==> Le(r.value.start, c.start)
    {
      OrderLaws();
      r := None;
      var i := |items| - 1;
      while i >= 0
        invariant -1 <= i < |items| && r.None?
        invariant forall j :: i < j < |items| ==> Le(items[j].start, start)
      {
        if Lt(start, items[i].start) {
          return Some(items[i]);
        }
        i := i - 1;
      }
    }

    method Run(ops: seq<Op>)
      requires Valid()
      modifies this
      ensures Valid()
      ensures View() == TreeRun(old(View()), ops)
    {
      var n := 0;
      while n < |ops|
        invariant 0 <= n <= |ops|
        invariant Valid() && View() == TreeRun(old(View()), ops[..n])
      {
        assert ops[..n + 1][..n] == ops[..n];
        match ops[n] {
          case Update(c) => Update(c);
          case Remove(c) => var _ := Remove(c);
        }
        n := n + 1;
      }
      assert ops[..n] == ops;
    }
  }

  /** The pivot of the scan is the found cell or the new one. */
  lemma PivotScans(items: seq<Cell>, cell: Cell, found: Option<Cell>, c: Cell)
    requires Ordered(items) && c in items
    requires found.Some? ==> Found(Elems(items), cell.start, found.value)
    requires found.None? ==> forall x :: !Found(Elems(items), cell.start, x)
    ensures var pivot := if found.Some? then found.value.start else cell.start;
            Le(pivot, c.start) && !Before(cell, c) <==> Scanned(Elems(items), cell, c)
  {
    OrderLaws();
    if found.Some? && Le(found.value.start, c.start) && !Le(cell.start, c.start) {
      StartUnique(items, c, found.value);
    }
  }
}
