/** The offset queue that feeds watchers. */
module OffsetQueues {
  import opened Cells

  /** The largest offset in use after n events; 0 also stands for "nothing yet". */
  function MaxOffset(n: nat): nat
  {
    if n == 0 then 0 else n - 1
  }

  /** The first event that Get(offset) returns, which is also where the queue starts afterwards. */
  function From(start: nat, offset: nat): nat
  {
    if offset < start || (offset == start && start == 0) then start else offset + 1
  }

  class OffsetQueue<T> {
    var start: nat
    var end: nat
    var items: seq<T>

    /** The queue holds the events from `start` on out of all events ever added. */
    ghost predicate Holds(all: seq<T>)
      reads this
    {
      end == |all| && start <= end && items == all[start..]
    }

    constructor ()
      ensures Holds([]) && start == 0
    {
      start, end, items := 0, 0, [];
    }

    method Add(item: T, ghost all: seq<T>) returns (max: nat)
      requires Holds(all)
      modifies this
      ensures Holds(all + [item]) && start == old(start)
      ensures max == MaxOffset(|all| + 1)
    {
      end := end + 1;
      items := items + [item];
      max := MaxOffset(end);
    }

    /** None stands for the panic on an offset beyond the end. */
    method Get(offset: nat, ghost all: seq<T>) returns (r: Option<(seq<T>, nat)>)
      requires Holds(all)
      modifies this
      ensures Holds(all)
      ensures r.None? <==> offset > MaxOffset(|all|)
      ensures r.None? ==> start == old(start)
      ensures r.Some? ==> start == From(old(start), offset) && r.value == (all[start..], MaxOffset(|all|))
    {
      var max := MaxOffset(end);
      if offset > max {
        return None;
      }
      if offset < start || (offset == start && start == 0) {
        return Some((items, max));
      }
      var value: seq<T> := [];
      var i := start;
      while i < end
        invariant start <= i <= end
        invariant value == if i <= offset + 1 then [] else all[offset + 1..i]
      {
        assert items[i - start] == all[i];
        if i > offset {
          value := value + [items[i - start]];
        }
        i := i + 1;
      }
      assert all[offset + 1..end] == all[offset + 1..];
      var was := start;
      start := offset + 1;
      if start < end {
        items := items[start - was..];
      } else {
        items := [];
      }
      return Some((value, max));
    }
  }
}
