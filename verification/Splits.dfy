/** Splits: the cells of a store partition the key range, and the range tree routes to their owners. */
module Splits {
  import opened Keys
  import opened Cells
  import opened ApplyCore
  import opened CellTrees

  datatype SplitOp = SplitOp(cell: Cell, key: Key, newCell: nat, newPeers: seq<nat>)

  predicate Accepted(op: SplitOp)
  {
    SplitAccepted(op.cell, op.key, op.newPeers)
  }

  function Left(op: SplitOp): Cell
    requires Accepted(op)
  {
    SplitCell(op.cell, op.key, op.newCell, op.newPeers).0
  }

  function Right(op: SplitOp): Cell
    requires Accepted(op)
  {
    SplitCell(op.cell, op.key, op.newCell, op.newPeers).1
  }

  /** The applied command splits exactly when its key, without the data prefix, is accepted; the result
      then carries the two parts. */
  lemma ExecutedSplit(core: Core, rawKey: Key, newCell: nat, newPeers: seq<nat>)
    requires |rawKey| > 0
    ensures var op := SplitOp(core.cell, rawKey[1..], newCell, newPeers);
            var o := ExecSplit(core, rawKey, newCell, newPeers);
            && (Accepted(op) <==> o.result.Some?)
            && (Accepted(op) ==> o.result == Some(SplitResult(Left(op), Right(op))) && o.core.cell == Left(op)
                                 && o.core.born == core.born + [Right(op)])
  {
  }

  // ---- one split ----

  /** The two parts share no key and together hold exactly the keys of the whole. */
  ghost predicate Halves(whole: Cell, left: Cell, right: Cell)
  {
    forall k: Key :: && !(Contains(left, k) && Contains(right, k))
                     && (Contains(whole, k) <==> Contains(left, k) || Contains(right, k))
  }

  /** Each accepted split gives both parts the next range version and the old membership version, keeps
      id and peers on the left and puts the right part on the same stores in the same order. */
  lemma PartsInherit(op: SplitOp)
    requires Accepted(op)
    ensures var l, r, c := Left(op), Right(op), op.cell;
            && l.epoch == r.epoch == Epoch(c.epoch.confVer, c.epoch.cellVer + 1)
            && l.id == c.id && l.peers == c.peers && r.id == op.newCell
            && StoreIds(r.peers) == StoreIds(c.peers)
  {
  }

  /** With the empty key as positive infinity an accepted split cuts the range in two unless the split
      key is the empty key, which is then also the start. */
  lemma HalvesIff(op: SplitOp)
    requires Accepted(op)
    ensures Halves(op.cell, Left(op), Right(op)) <==> |op.key| > 0
  {
    OrderLaws();
    if |op.key| == 0 {
      assert Contains(Left(op), op.key) && Contains(Right(op), op.key);
    } else {
      forall k: Key
        ensures !(Contains(Left(op), k) && Contains(Right(op), k))
        ensures Contains(op.cell, k) <==> Contains(Left(op), k) || Contains(Right(op), k)
      {
        EmptyIsLeast(k);
        EmptyIsLeast(op.key);
      }
    }
  }

  lemma EmptyIsLeast(k: Key)
    ensures Le([], k) && (|k| == 0 || Lt([], k))
  {
  }

  /** Both parts hold keys and cut the range in two exactly when the key is strictly above the start. */
  lemma ProperIff(op: SplitOp)
    requires Accepted(op)
    ensures NonEmpty(Left(op)) && NonEmpty(Right(op)) && Halves(op.cell, Left(op), Right(op)) <==> Lt(op.cell.start, op.key)
  {
    OrderLaws();
    HalvesIff(op);
    EmptyIsLeast(op.key);
    EmptyIsLeast(op.cell.start);
  }

  /** The accepted split that does not: the key is the start of a cell, and the cell keeps nothing. */
  lemma SplitAtStart(op: SplitOp)
    requires Accepted(op) && op.key == op.cell.start && |op.key| > 0
    ensures forall k: Key :: !Contains(Left(op), k)
    ensures forall k: Key :: Contains(Right(op), k) <==> Contains(op.cell, k)
  {
    OrderLaws();
  }

  // ---- any sequence of splits ----

  ghost predicate GoesThrough(s: set<Cell>, op: SplitOp)
  {
    op.cell in s && Accepted(op)
  }

  ghost predicate Proper(s: set<Cell>, op: SplitOp)
  {
    GoesThrough(s, op) && Lt(op.cell.start, op.key)
  }

  /** A split that is not accepted leaves the cells alone. */
  ghost function SplitStep(s: set<Cell>, op: SplitOp): set<Cell>
  {
    if GoesThrough(s, op) then s - {op.cell} + {Left(op), Right(op)} else s
  }

  ghost function SplitRun(s: set<Cell>, ops: seq<SplitOp>): set<Cell>
  {
    if |ops| == 0 then s
    else
      var n := |ops| - 1;
      SplitStep(SplitRun(s, ops[..n]), ops[n])
  }

  /** Every split of the run that goes through has its key strictly above the start of its cell. */
  ghost predicate ProperRun(s: set<Cell>, ops: seq<SplitOp>)
  {
    |ops| == 0 || (var n := |ops| - 1;
                   var t := SplitRun(s, ops[..n]);
                   ProperRun(s, ops[..n]) && (GoesThrough(t, ops[n]) ==> Proper(t, ops[n])))
  }

  lemma PartsStayApart(s: set<Cell>, op: SplitOp, c: Cell)
    requires Disjoint(s) && Proper(s, op) && c in s && c != op.cell
    ensures !Overlap(c, Left(op)) && !Overlap(c, Right(op))
  {
    ProperIff(op);
    if k: Key :| Contains(c, k) && (Contains(Left(op), k) || Contains(Right(op), k)) {
      OwnerUnique(s, c, op.cell, k);
    }
  }

  lemma PartsOverlapWhole(op: SplitOp)
    requires Accepted(op) && Lt(op.cell.start, op.key)
    ensures Overlap(op.cell, Left(op)) && !Overlap(Left(op), Right(op))
  {
    ProperIff(op);
    OrderLaws();
    assert Contains(op.cell, op.cell.start) && Contains(Left(op), op.cell.start);
  }

  lemma StepDisjoint(s: set<Cell>, op: SplitOp)
    requires Disjoint(s) && Proper(s, op)
    ensures Disjoint(SplitStep(s, op))
  {
    ProperIff(op);
    PartsOverlapWhole(op);
    forall a, b | a in SplitStep(s, op) && b in SplitStep(s, op) && a != b
      ensures !Overlap(a, b)
    {
      if a in s && a != op.cell {
        PartsStayApart(s, op, a);
      }
      if b in s && b != op.cell {
        PartsStayApart(s, op, b);
      }
    }
  }

  /** Update(left) then Update(right) on the tree is the split. */
  lemma TreeFollowsSplit(s: set<Cell>, op: SplitOp)
    requires Disjoint(s) && Proper(s, op)
    ensures TreeUpdate(TreeUpdate(s, Left(op)), Right(op)) == SplitStep(s, op)
  {
    PartsOverlapWhole(op);
    ProperIff(op);
    forall c | c in s && c != op.cell
      ensures !Overlap(c, Left(op)) && !Overlap(c, Right(op))
    {
      PartsStayApart(s, op, c);
    }
    UpdateIsAbs(s, Left(op));
    var t := AbsUpdate(s, Left(op));
    assert t == s - {op.cell} + {Left(op)} by {
      assert forall c :: c in t <==> c in s - {op.cell} + {Left(op)};
    }
    UpdateIsAbs(t, Right(op));
    var u := AbsUpdate(t, Right(op));
    assert forall c :: c in u <==> c in SplitStep(s, op);
  }

  /** A split at the start key leaves only the right part in the tree; with the empty key everything else goes. */
  lemma TreeAtStart(s: set<Cell>, op: SplitOp)
    requires Disjoint(s) && GoesThrough(s, op) && op.key == op.cell.start
    ensures TreeUpdate(TreeUpdate(s, Left(op)), Right(op)) ==
            if |op.key| > 0 then s - {op.cell} + {Right(op)} else {Right(op)}
  {
    OrderLaws();
    var l, r := Left(op), Right(op);
    DisjointIsTidy(s);
    TidyIff(s, l);
    var t := TreeUpdate(s, l);
    TidyIff(t, r);
    if |op.key| > 0 {
      forall c | c in s && c != op.cell
        ensures !Touches(c, l) && !Touches(c, r)
      {
        TouchesIsOverlap(c, op.cell);
      }
      assert t == s - {op.cell} + {l} by {
        assert forall c :: c in t <==> c in s - {op.cell} + {l};
      }
    } else {
      forall c | c in s
        ensures Touches(c, l)
      {
        EmptyIsLeast(c.start);
      }
      assert t == {l};
    }
  }

  ghost predicate Owned(s: set<Cell>, k: Key)
  {
    exists c :: c in s && Contains(c, k)
  }

  /** The cells are disjoint, hold exactly the keys of the original cell, and live on its stores. */
  ghost predicate Partition(s: set<Cell>, whole: Cell)
  {
    && Disjoint(s)
    && (forall k: Key :: Contains(whole, k) <==> Owned(s, k))
    && (forall c :: c in s ==> StoreIds(c.peers) == StoreIds(whole.peers))
  }

  lemma StepPartition(s: set<Cell>, op: SplitOp, whole: Cell)
    requires Partition(s, whole) && Proper(s, op)
    ensures Partition(SplitStep(s, op), whole)
  {
    StepDisjoint(s, op);
    ProperIff(op);
    PartsInherit(op);
    var t := SplitStep(s, op);
    forall k: Key
      ensures Owned(s, k) <==> Owned(t, k)
    {
      if c :| c in s && Contains(c, k) {
        if c == op.cell {
          assert Contains(Left(op), k) || Contains(Right(op), k);
          assert Left(op) in t && Right(op) in t;
        } else {
          assert c in t;
        }
      }
      if c :| c in t && Contains(c, k) {
        assert c in s || (op.cell in s && Contains(op.cell, k));
      }
    }
  }

  /** After any sequence of splits above the start keys the cells partition the original range, on the
      same stores. */
  lemma {:induction false} SplitsPartition(whole: Cell, ops: seq<SplitOp>)
    requires NonEmpty(whole) && ProperRun({whole}, ops)
    ensures Partition(SplitRun({whole}, ops), whole)
  {
    if |ops| == 0 {
      assert whole in {whole};
      assert forall k: Key :: Contains(whole, k) ==> Owned({whole}, k);
    } else {
      var n := |ops| - 1;
      SplitsPartition(whole, ops[..n]);
      if GoesThrough(SplitRun({whole}, ops[..n]), ops[n]) {
        StepPartition(SplitRun({whole}, ops[..n]), ops[n], whole);
      }
    }
  }

  /** Whoever owns a key later has a range version at least as high, and a higher one if it changed. */
  lemma {:induction false} OwnerVersionRises(s: set<Cell>, ops: seq<SplitOp>, k: Key, before: Cell, after: Cell)
    requires Disjoint(s) && ProperRun(s, ops) && before in s && Contains(before, k)
    requires after in SplitRun(s, ops) && Contains(after, k)
    ensures after == before || before.epoch.cellVer < after.epoch.cellVer
  {
    if |ops| == 0 {
      OwnerUnique(s, before, after, k);
    } else {
      var n := |ops| - 1;
      var t := SplitRun(s, ops[..n]);
      var op := ops[n];
      if !GoesThrough(t, op) || (after in t && after != op.cell) {
        OwnerVersionRises(s, ops[..n], k, before, after);
      } else {
        assert after == Left(op) || after == Right(op);
        ProperIff(op);
        OwnerVersionRises(s, ops[..n], k, before, op.cell);
      }
    }
  }

  /** The tree operations of a run of splits. */
  ghost function TreeOps(s: set<Cell>, ops: seq<SplitOp>): seq<Op>
  {
    if |ops| == 0 then []
    else
      var n := |ops| - 1;
      TreeOps(s, ops[..n]) +
      if GoesThrough(SplitRun(s, ops[..n]), ops[n]) then [Update(Left(ops[n])), Update(Right(ops[n]))] else []
  }

  lemma {:induction false} RunDisjoint(s: set<Cell>, ops: seq<SplitOp>)
    requires Disjoint(s) && ProperRun(s, ops)
    ensures Disjoint(SplitRun(s, ops))
  {
    if |ops| > 0 {
      var n := |ops| - 1;
      RunDisjoint(s, ops[..n]);
      if GoesThrough(SplitRun(s, ops[..n]), ops[n]) {
        StepDisjoint(SplitRun(s, ops[..n]), ops[n]);
      }
    }
  }

  lemma RunTwo(s: set<Cell>, ops: seq<Op>, a: Cell, b: Cell)
    ensures TreeRun(s, ops + [Update(a), Update(b)]) == TreeUpdate(TreeUpdate(TreeRun(s, ops), a), b)
  {
    var two := ops + [Update(a), Update(b)];
    var one := two[..|two| - 1];
    assert one == ops + [Update(a)] && one[..|ops|] == ops;
    assert TreeRun(s, one) == TreeUpdate(TreeRun(s, ops), a);
  }

  /** The tree, updated with left and right at every split, is the set of cells at every moment. */
  lemma {:induction false} TreeFollowsRun(s: set<Cell>, ops: seq<SplitOp>)
    requires Disjoint(s) && ProperRun(s, ops)
    ensures TreeRun(s, TreeOps(s, ops)) == SplitRun(s, ops)
  {
    if |ops| > 0 {
      var n := |ops| - 1;
      RunDisjoint(s, ops[..n]);
      TreeFollowsRun(s, ops[..n]);
      if GoesThrough(SplitRun(s, ops[..n]), ops[n]) {
        RunTwo(s, TreeOps(s, ops[..n]), Left(ops[n]), Right(ops[n]));
        TreeFollowsSplit(SplitRun(s, ops[..n]), ops[n]);
      } else {
        assert TreeOps(s, ops) == TreeOps(s, ops[..n]);
      }
    }
  }

  /** What a store does with a split result: the two parts replace the cell, except that a split at the start
      key leaves the right part only, and at the empty key nothing but it. */
  method ApplySplit(tree: CellTree, op: SplitOp)
    requires tree.Valid() && Disjoint(tree.View()) && GoesThrough(tree.View(), op)
    modifies tree
    ensures tree.Valid() && Disjoint(tree.View())
    ensures tree.View() == if Lt(op.cell.start, op.key) then old(tree.View()) - {op.cell} + {Left(op), Right(op)}
                           else if |op.key| > 0 then old(tree.View()) - {op.cell} + {Right(op)}
                           else {Right(op)}
  {
    OrderLaws();
    ghost var s := tree.View();
    if Lt(op.cell.start, op.key) {
      TreeFollowsSplit(s, op);
      StepDisjoint(s, op);
    } else {
      TreeAtStart(s, op);
      RightStaysApart(s, op);
    }
    tree.Update(Left(op));
    tree.Update(Right(op));
  }

  lemma RightStaysApart(s: set<Cell>, op: SplitOp)
    requires Disjoint(s) && GoesThrough(s, op) && op.key == op.cell.start
    ensures Disjoint(s - {op.cell} + {Right(op)}) && Disjoint({Right(op)})
  {
    OrderLaws();
    assert NonEmpty(Right(op));
    forall c | c in s && c != op.cell
      ensures !Overlap(c, Right(op)) && !Overlap(Right(op), c)
    {
      if k: Key :| Contains(c, k) && Contains(Right(op), k) {
        assert Contains(op.cell, k);
        OwnerUnique(s, c, op.cell, k);
      }
    }
  }

  /** Unless the key is empty, every key of the split cell is found in the part that owns it and every other key
      where it was. */
  method SearchAfterSplit(tree: CellTree, op: SplitOp, key: Key) returns (before: Cell, after: Cell)
    requires tree.Valid() && Disjoint(tree.View()) && GoesThrough(tree.View(), op)
    modifies tree
    ensures Contains(op.cell, key) ==> before == op.cell && after == if Lt(key, op.key) then Left(op) else Right(op)
    ensures !Contains(op.cell, key) ==> after == if |op.key| > 0 then before else EMPTY_CELL
  {
    before := tree.Search(key);
    ghost var was := tree.View();
    ApplySplit(tree, op);
    ghost var now := tree.View();
    OrderLaws();
    after := tree.Search(key);
    forall c
      ensures Found(was, key, c) <==> c in was && Contains(c, key)
      ensures Found(now, key, c) <==> c in now && Contains(c, key)
    {
      FoundIsUnique(was, key, c);
      FoundIsUnique(now, key, c);
    }
    RoutedToPart(was, op, key);
  }

  /** Who holds the key before and after. */
  lemma RoutedToPart(was: set<Cell>, op: SplitOp, key: Key)
    requires Disjoint(was) && GoesThrough(was, op)
    ensures Contains(op.cell, key) ==> Contains(if Lt(key, op.key) then Left(op) else Right(op), key)
    ensures Contains(op.cell, key) && Lt(key, op.key) ==> Lt(op.cell.start, op.key)
    ensures !Contains(op.cell, key) ==> !Contains(Right(op), key) && (Lt(op.cell.start, op.key) ==> !Contains(Left(op), key))
  {
    OrderLaws();
    EmptyIsLeast(op.key);
    if Lt(op.cell.start, op.key) {
      ProperIff(op);
    }
  }

  // ---- a replica's cells over a whole replay ----

  /** The cells split off since `base` of them had been. */
  ghost function BornSince(core: Core, base: nat): set<Cell>
  {
    set i | base <= i < |core.born| :: core.born[i]
  }

  /** The cell and the rest cut the whole range into disjoint nonempty pieces. */
  ghost predicate Tiling(cell: Cell, rest: set<Cell>, whole: Cell)
  {
    && NonEmpty(cell) && Disjoint(rest)
    && (forall c :: c in rest ==> !Overlap(c, cell))
    && (forall k: Key :: Contains(whole, k) <==> Contains(cell, k) || Owned(rest, k))
  }

  lemma TilingKeeps(cell: Cell, now: Cell, rest: set<Cell>, whole: Cell)
    requires Tiling(cell, rest, whole) && now.start == cell.start && now.end == cell.end
    ensures Tiling(now, rest, whole)
  {
    assert forall k: Key :: Contains(now, k) <==> Contains(cell, k);
    forall c | c in rest
      ensures !Overlap(c, now)
    {
      assert !Overlap(c, cell);
    }
  }

  lemma TilingSplits(rest: set<Cell>, op: SplitOp, whole: Cell)
    requires Tiling(op.cell, rest, whole) && Accepted(op) && Lt(op.cell.start, op.key)
    ensures Tiling(Left(op), rest + {Right(op)}, whole)
  {
    ProperIff(op);
    PartsOverlapWhole(op);
    var l, r := Left(op), Right(op);
    forall c | c in rest
      ensures !Overlap(c, l) && !Overlap(c, r) && !Overlap(r, c)
    {
      assert !Overlap(c, op.cell);
    }
    assert !Overlap(r, l);
    forall k: Key
      ensures Contains(op.cell, k) || Owned(rest, k) <==> Contains(l, k) || Owned(rest + {r}, k)
    {
      if c :| c in rest && Contains(c, k) {
        assert c in rest + {r};
      }
      if Contains(r, k) {
        assert r in rest + {r};
      }
    }
  }

  /** Every split that goes through has its key above the start. */
  predicate ProperReplay(core: Core, entries: seq<Entry>)
  {
    |entries| > 0 ==>
      var n := |entries| - 1;
      var c := Replay(core, entries[..n]);
      ProperReplay(core, entries[..n]) && (SplitsAt(c, entries[n]) ==> Lt(c.cell.start, entries[n].payload.req.body.rawKey[1..]))
  }

  /** One entry: the range stays, or the cell is split as the operation says. */
  lemma EntrySplits(core: Core, e: Entry, base: nat)
    requires base <= |core.born|
    ensures var c := ApplyEntry(core, e).core;
            if SplitsAt(core, e) then
              var b := e.payload.req.body;
              var op := SplitOp(core.cell, b.rawKey[1..], b.newCell, b.newPeers);
              Accepted(op) && c.cell == Left(op) && BornSince(c, base) == BornSince(core, base) + {Right(op)}
            else c.cell.start == core.cell.start && c.cell.end == core.cell.end && c.born == core.born
  {
    if SplitsAt(core, e) {
      var b := e.payload.req.body;
      ExecutedSplit(core, b.rawKey, b.newCell, b.newPeers);
      var c := ApplyEntry(core, e).core;
      var op := SplitOp(core.cell, b.rawKey[1..], b.newCell, b.newPeers);
      assert c.born == core.born + [Right(op)];
      BornNext(core, c, base);
    }
  }

  lemma BornNext(core: Core, c: Core, base: nat)
    requires base <= |core.born| && |c.born| == |core.born| + 1 && c.born[..|core.born|] == core.born
    ensures BornSince(c, base) == BornSince(core, base) + {c.born[|core.born|]}
  {
    var n := |core.born|;
    assert forall i :: base <= i < n ==> c.born[i] == core.born[i];
    assert c.born[n] in BornSince(c, base);
    forall x
      ensures x in BornSince(c, base) <==> x in BornSince(core, base) + {c.born[n]}
    {
      if i :| base <= i < n && core.born[i] == x {
        assert c.born[i] == x;
      }
    }
  }

  /** Whatever else is applied in between, the cell and the cells split off it cut the range it started with
      into disjoint nonempty pieces. */
  lemma {:induction false} ReplayPartitions(core: Core, entries: seq<Entry>)
    requires NonEmpty(core.cell) && ProperReplay(core, entries)
    ensures |core.born| <= |Replay(core, entries).born|
    ensures var c := Replay(core, entries); Tiling(c.cell, BornSince(c, |core.born|), core.cell)
  {
    if |entries| == 0 {
      assert BornSince(core, |core.born|) == {};
    } else {
      var n := |entries| - 1;
      ReplayPartitions(core, entries[..n]);
      var c, e := Replay(core, entries[..n]), entries[n];
      EntrySplits(c, e, |core.born|);
      if SplitsAt(c, e) {
        var b := e.payload.req.body;
        TilingSplits(BornSince(c, |core.born|), SplitOp(c.cell, b.rawKey[1..], b.newCell, b.newPeers), core.cell);
      } else {
        TilingKeeps(c.cell, ApplyEntry(c, e).core.cell, BornSince(c, |core.born|), core.cell);
      }
    }
  }
}
