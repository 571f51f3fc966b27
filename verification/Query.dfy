/** The scatter/gather query: one request per leader store, retries cell by cell, a bounded result. */
module Query {
  import opened Cells
  import opened OrderedArrays

  datatype Range = Range(cell: nat, leader: nat, peers: seq<Peer>)

  function OtherStores(peers: seq<Peer>, leader: nat): seq<nat>
  {
    if |peers| == 0 then []
    else
      var n := |peers| - 1;
      OtherStores(peers[..n], leader) + (if peers[n].storeId != leader then [peers[n].storeId] else [])
  }

  /** The retry list holds exactly the stores of the peers that do not lead, each once if no store has two. */
  lemma {:induction false} OtherStoresAre(peers: seq<Peer>, leader: nat)
    ensures forall s :: s in OtherStores(peers, leader) <==> s != leader && OnStore(peers, s)
    ensures (forall i, j :: 0 <= i < j < |peers| ==> peers[i].storeId != peers[j].storeId) ==> DistinctSeq(OtherStores(peers, leader))
  {
    if |peers| > 0 {
      var n := |peers| - 1;
      OtherStoresAre(peers[..n], leader);
      forall s
        ensures OnStore(peers, s) <==> OnStore(peers[..n], s) || peers[n].storeId == s
      {
        if OnStore(peers[..n], s) {
          var i :| 0 <= i < n && peers[..n][i].storeId == s;
          assert peers[i].storeId == s;
        }
        if i :| 0 <= i < n && peers[i].storeId == s {
          assert peers[..n][i].storeId == s;
        }
      }
      var rest := OtherStores(peers[..n], leader);
      if forall i, j :: 0 <= i < j < |peers| ==> peers[i].storeId != peers[j].storeId {
        assert !OnStore(peers[..n], peers[n].storeId);
        assert forall i :: 0 <= i < |rest| ==> rest[i] in rest;
      }
    }
  }

  /** Each retry goes to the first store left of its cell. */
  lemma {:induction false} RetriesAre(stores: map<nat, seq<nat>>, cells: seq<nat>, c: nat, s: nat)
    requires forall d :: d in cells ==> d in stores
    ensures (c, s) in Retries(stores, cells) <==> c in cells && stores[c] != [] && stores[c][0] == s
  {
    if |cells| > 0 {
      var n := |cells| - 1;
      RetriesAre(stores, cells[..n], c, s);
      assert cells == cells[..n] + [cells[n]];
    }
  }

  /** The cells led by a store, in the order of the ranges. */
  function LedBy(ranges: seq<Range>, store: nat): seq<nat>
  {
    if |ranges| == 0 then []
    else
      var n := |ranges| - 1;
      LedBy(ranges[..n], store) + (if ranges[n].leader == store then [ranges[n].cell] else [])
  }

  ghost predicate DistinctCells(ranges: seq<Range>)
  {
    forall i, j :: 0 <= i < j < |ranges| ==> ranges[i].cell != ranges[j].cell
  }

  method NonLeaderStores(r: Range) returns (storeIDs: seq<nat>)
    ensures storeIDs == OtherStores(r.peers, r.leader)
  {
    storeIDs := [];
    for k := 0 to |r.peers|
      invariant storeIDs == OtherStores(r.peers[..k], r.leader)
    {
      assert r.peers[..k + 1][..k] == r.peers[..k];
      if r.peers[k].storeId != r.leader {
        storeIDs := storeIDs + [r.peers[k].storeId];
      }
    }
    assert r.peers[..|r.peers|] == r.peers;
  }

  lemma LedNext(ranges: seq<Range>, n: nat)
    requires n < |ranges|
    ensures forall s :: LedBy(ranges[..n + 1], s) == LedBy(ranges[..n], s) + if ranges[n].leader == s then [ranges[n].cell] else []
  {
    assert ranges[..n + 1][..n] == ranges[..n];
  }

  /** The cell table: every cell of the ranges with the stores of its peers that do not lead. */
  ghost predicate CellTable(ranges: seq<Range>, cellStores: map<nat, seq<nat>>)
  {
    && (forall c :: c in cellStores <==> exists i :: 0 <= i < |ranges| && ranges[i].cell == c)
    && (forall i :: 0 <= i < |ranges| ==> cellStores[ranges[i].cell] == OtherStores(ranges[i].peers, ranges[i].leader))
  }

  /** The store table: every store with the cells it leads. */
  ghost predicate StoreTable(ranges: seq<Range>, storeCells: map<nat, seq<nat>>)
  {
    forall s :: (if s in storeCells then storeCells[s] else []) == LedBy(ranges, s)
  }

  lemma CellTableNext(ranges: seq<Range>, n: nat, cellStores: map<nat, seq<nat>>)
    requires DistinctCells(ranges) && n < |ranges| && CellTable(ranges[..n], cellStores)
    ensures CellTable(ranges[..n + 1], cellStores[ranges[n].cell := OtherStores(ranges[n].peers, ranges[n].leader)])
  {
    var r, more := ranges[n], ranges[..n + 1];
    var now := cellStores[r.cell := OtherStores(r.peers, r.leader)];
    assert forall i :: 0 <= i < n ==> more[i] == ranges[..n][i] && more[i].cell != r.cell;
    assert more[n] == r;
    forall c
      ensures c in now <==> exists i :: 0 <= i < |more| && more[i].cell == c
    {
      if c in cellStores {
        var i :| 0 <= i < n && ranges[..n][i].cell == c;
        assert more[i].cell == c;
      }
    }
  }

  /** Both routing tables are rebuilt from the placement driver's ranges. */
  method RefreshRanges(ranges: seq<Range>) returns (cellStores: map<nat, seq<nat>>, storeCells: map<nat, seq<nat>>)
    requires DistinctCells(ranges)
    ensures CellTable(ranges, cellStores) && StoreTable(ranges, storeCells)
  {
    cellStores, storeCells := map[], map[];
    for n := 0 to |ranges|
      invariant CellTable(ranges[..n], cellStores)
      invariant StoreTable(ranges[..n], storeCells)
    {
      LedNext(ranges, n);
      CellTableNext(ranges, n, cellStores);
      var r := ranges[n];
      var storeIDs := NonLeaderStores(r);
      cellStores := cellStores[r.cell := storeIDs];
      var cells := if r.leader in storeCells then storeCells[r.leader] else [];
      storeCells := storeCells[r.leader := cells + [r.cell]];
    }
    assert ranges[..|ranges|] == ranges;
  }

  /** The first round asks for every cell exactly once, at its leader's store. */
  lemma {:induction false} AskedOnce(ranges: seq<Range>, r: Range, store: nat)
    requires DistinctCells(ranges) && r in ranges
    ensures multiset(LedBy(ranges, store))[r.cell] == if store == r.leader then 1 else 0
  {
    var n := |ranges| - 1;
    if ranges[n] == r {
      NotAsked(ranges[..n], r.cell, store);
    } else {
      var i :| 0 <= i < n && ranges[i] == r;
      assert ranges[..n][i] == r;
      AskedOnce(ranges[..n], r, store);
    }
  }

  lemma {:induction false} NotAsked(ranges: seq<Range>, cell: nat, store: nat)
    requires forall i :: 0 <= i < |ranges| ==> ranges[i].cell != cell
    ensures cell !in LedBy(ranges, store)
  {
    if |ranges| > 0 {
      NotAsked(ranges[..|ranges| - 1], cell, store);
    }
  }

  // ---- gathering ----

  /** stores: what is left to try per cell; open: cells with an unanswered request; asked: the stores tried
      after the leader, per cell; got: every document received; final: the answer went to the client. */
  datatype Gather = Gather(stores: map<nat, seq<nat>>, done: seq<nat>, failed: seq<nat>, open: set<nat>,
                           asked: map<nat, seq<nat>>, got: multiset<Item>, final: bool)

  datatype Reply = Failed(cells: seq<nat>) | Docs(cells: seq<nat>, docs: seq<Item>)

  function Scatter(stores: map<nat, seq<nat>>): Gather
  {
    Gather(stores, [], [], stores.Keys, map c | c in stores :: [], multiset{}, false)
  }

  /** One cell of a failed reply: the next store is tried, or the cell is given up. */
  function FailCell(g: Gather, c: nat): Gather
    requires c in g.stores && c in g.asked
  {
    if |g.stores[c]| > 0 then
      g.(stores := g.stores[c := g.stores[c][1..]], asked := g.asked[c := g.asked[c] + [g.stores[c][0]]])
    else
      g.(failed := g.failed + [c], done := g.done + [c], open := g.open - {c})
  }

  function FailCells(g: Gather, cells: seq<nat>): (r: Gather)
    requires forall c :: c in cells ==> c in g.stores && c in g.asked
    ensures r.stores.Keys == g.stores.Keys && r.asked.Keys == g.asked.Keys
  {
    if |cells| == 0 then g
    else
      var n := |cells| - 1;
      FailCell(FailCells(g, cells[..n]), cells[n])
  }

  function HandleReply(g: Gather, r: Reply): Gather
    requires r.Failed? ==> forall c :: c in r.cells ==> c in g.stores && c in g.asked
  {
    var t := match r
      case Failed(cells) => FailCells(g, cells)
      case Docs(cells, docs) =>
        g.(done := g.done + cells, open := g.open - (set c | c in cells), got := g.got + multiset(docs));
    t.(final := |t.stores| == |t.done|)
  }

  ghost predicate DistinctSeq(a: seq<nat>)
  {
    forall i, j :: 0 <= i < j < |a| ==> a[i] != a[j]
  }

  /** A reply covers some of the unanswered cell requests, each of them once. */
  ghost predicate Admissible(g: Gather, r: Reply)
  {
    r.cells != [] && DistinctSeq(r.cells) && forall c :: c in r.cells ==> c in g.open
  }

  ghost predicate Inv(g: Gather, init: map<nat, seq<nat>>)
  {
    CellInv(g, init) && (g.final ==> g.open == {})
  }

  /** Against the retry lists `init` the query started with. */
  ghost predicate CellInv(g: Gather, init: map<nat, seq<nat>>)
  {
    && g.stores.Keys == init.Keys == g.asked.Keys
    && g.open <= init.Keys
    && DistinctSeq(g.done)
    && (forall c :: c in g.done <==> c in init && c !in g.open)
    && (forall c :: c in init ==> g.asked[c] + g.stores[c] == init[c])
    && (forall c :: c in g.failed ==> c in g.done && g.stores[c] == [])
  }

  /** How many more answers a cell can take. */
  function Cost(g: Gather, c: nat): int
  {
    if c in g.open && c in g.stores then |g.stores[c]| + 1 else 0
  }

  lemma FailCellKeeps(g: Gather, init: map<nat, seq<nat>>, c: nat)
    requires CellInv(g, init) && c in g.open
    ensures CellInv(FailCell(g, c), init)
    ensures forall d :: d in g.open && d != c ==> d in FailCell(g, c).open
    ensures forall d :: Cost(FailCell(g, c), d) == Cost(g, d) - if d == c then 1 else 0
  {
    if |g.stores[c]| > 0 {
      RetryKeeps(g, init, c);
    } else {
      GiveUpKeeps(g, init, c);
    }
  }

  lemma RetryKeeps(g: Gather, init: map<nat, seq<nat>>, c: nat)
    requires CellInv(g, init) && c in g.open && |g.stores[c]| > 0
    ensures CellInv(FailCell(g, c), init)
  {
    var t := FailCell(g, c);
    assert c !in g.done;
    assert t.stores.Keys == g.stores.Keys && t.asked.Keys == g.asked.Keys;
    assert t.asked[c] + t.stores[c] == g.asked[c] + g.stores[c];
  }

  lemma GiveUpKeeps(g: Gather, init: map<nat, seq<nat>>, c: nat)
    requires CellInv(g, init) && c in g.open && |g.stores[c]| == 0
    ensures CellInv(FailCell(g, c), init)
  {
    var t := FailCell(g, c);
    assert c !in g.done;
    assert forall i :: 0 <= i < |g.done| ==> g.done[i] in g.done;
    assert forall d :: d in t.done <==> d in g.done || d == c;
  }

  lemma LastIsNew(cells: seq<nat>)
    requires DistinctSeq(cells) && |cells| > 0
    ensures var n := |cells| - 1;
            cells[n] !in cells[..n] && forall c :: c in cells <==> c in cells[..n] || c == cells[n]
  {
    assert cells == cells[..|cells| - 1] + [cells[|cells| - 1]];
  }

  lemma {:induction false} FailCellsKeep(g: Gather, init: map<nat, seq<nat>>, cells: seq<nat>)
    requires CellInv(g, init) && DistinctSeq(cells) && forall c :: c in cells ==> c in g.open
    ensures CellInv(FailCells(g, cells), init)
    ensures forall d :: d in g.open && d !in cells ==> d in FailCells(g, cells).open
    ensures FailCells(g, cells).got == g.got
    ensures forall c :: Cost(FailCells(g, cells), c) <= Cost(g, c) - if c in cells then 1 else 0
  {
    if |cells| > 0 {
      var n := |cells| - 1;
      FailCellsKeep(g, init, cells[..n]);
      LastIsNew(cells);
      FailCellKeeps(FailCells(g, cells[..n]), init, cells[n]);
    }
  }

  lemma DistinctCount(a: seq<nat>, s: set<nat>)
    requires DistinctSeq(a) && forall x :: x in a <==> x in s
    ensures |a| == |s|
  {
    if |a| == 0 {
      assert s == {};
    } else {
      var n := |a| - 1;
      assert a[n] in s;
      DistinctCount(a[..n], s - {a[n]});
    }
  }

  /** The completion test compares lengths; it holds exactly when no cell is open. */
  lemma FinalIffDone(g: Gather, init: map<nat, seq<nat>>)
    requires CellInv(g, init)
    ensures |g.stores| == |g.done| <==> g.open == {}
  {
    DistinctCount(g.done, init.Keys - g.open);
    assert |init.Keys - g.open| == |init.Keys| - |g.open|;
    assert |g.stores| == |g.stores.Keys|;
  }

  lemma ReplyKeeps(g: Gather, init: map<nat, seq<nat>>, r: Reply)
    requires Inv(g, init) && Admissible(g, r)
    ensures var t := HandleReply(g, r); Inv(t, init) && (t.final <==> t.open == {})
    ensures forall c :: Cost(HandleReply(g, r), c) <= Cost(g, c) - if c in r.cells then 1 else 0
  {
    if r.Failed? {
      FailCellsKeep(g, init, r.cells);
      FinalIffDone(FailCells(g, r.cells), init);
    } else {
      assert forall c :: c in r.cells ==> c !in g.done;
      forall i, j | 0 <= i < |g.done| && 0 <= j < |r.cells|
        ensures g.done[i] != r.cells[j]
      {
        assert g.done[i] in g.done && r.cells[j] in r.cells;
      }
      FinalIffDone(HandleReply(g, r), init);
    }
  }

  /** Every reply of the run is admissible when it arrives. */
  ghost predicate AdmissibleRun(g: Gather, init: map<nat, seq<nat>>, replies: seq<Reply>)
    requires Inv(g, init)
    decreases |replies|
  {
    |replies| > 0 ==>
      Admissible(g, replies[0]) &&
      (ReplyKeeps(g, init, replies[0]); AdmissibleRun(HandleReply(g, replies[0]), init, replies[1..]))
  }

  ghost function Gathered(g: Gather, init: map<nat, seq<nat>>, replies: seq<Reply>): Gather
    requires Inv(g, init) && AdmissibleRun(g, init, replies)
    decreases |replies|
  {
    if |replies| == 0 then g
    else
      ReplyKeeps(g, init, replies[0]);
      Gathered(HandleReply(g, replies[0]), init, replies[1..])
  }

  function Work(g: Gather, cells: seq<nat>): int
  {
    if |cells| == 0 then 0 else Work(g, cells[..|cells| - 1]) + Cost(g, cells[|cells| - 1])
  }

  lemma {:induction false} WorkDrops(g: Gather, t: Gather, cells: seq<nat>, c: nat)
    requires forall d :: Cost(t, d) <= Cost(g, d)
    requires Cost(t, c) < Cost(g, c)
    ensures Work(t, cells) <= Work(g, cells) - if c in cells then 1 else 0
  {
    if |cells| > 0 {
      WorkDrops(g, t, cells[..|cells| - 1], c);
    }
  }

  lemma {:induction false} GatherKeeps(g: Gather, init: map<nat, seq<nat>>, replies: seq<Reply>)
    requires Inv(g, init) && AdmissibleRun(g, init, replies)
    ensures var t := Gathered(g, init, replies);
            Inv(t, init) && (replies != [] ==> (t.final <==> t.open == {}))
    decreases |replies|
  {
    if |replies| > 0 {
      ReplyKeeps(g, init, replies[0]);
      GatherKeeps(HandleReply(g, replies[0]), init, replies[1..]);
    }
  }

  lemma {:induction false} GatherEnds(g: Gather, init: map<nat, seq<nat>>, replies: seq<Reply>, cells: seq<nat>)
    requires Inv(g, init) && AdmissibleRun(g, init, replies)
    requires forall c :: c in cells <==> c in init
    ensures |replies| + Work(Gathered(g, init, replies), cells) <= Work(g, cells)
    decreases |replies|
  {
    if |replies| > 0 {
      var r := replies[0];
      ReplyKeeps(g, init, r);
      assert r.cells[0] in r.cells && r.cells[0] in init;
      WorkDrops(g, HandleReply(g, r), cells, r.cells[0]);
      GatherEnds(HandleReply(g, r), init, replies[1..], cells);
    }
  }

  /** Whatever the arrival order: the final answer goes out exactly when no cell is open, so after it
      nothing can arrive any more; every cell is then recorded done exactly once; no cell is asked more
      often than it has stores; and the number of replies is bounded by the stores listed at the start. */
  lemma GatherRuns(g: Gather, init: map<nat, seq<nat>>, replies: seq<Reply>, cells: seq<nat>)
    requires Inv(g, init) && AdmissibleRun(g, init, replies)
    requires forall c :: c in cells <==> c in init
    ensures var t := Gathered(g, init, replies);
            && Inv(t, init)
            && (replies != [] ==> (t.final <==> t.open == {}))
            && (g.open == {} ==> replies == [])
            && (t.open == {} ==> forall c :: c in init ==> multiset(t.done)[c] == 1)
            && (forall c :: c in init ==> t.asked[c] + t.stores[c] == init[c])
            && |replies| + Work(t, cells) <= Work(g, cells)
  {
    GatherKeeps(g, init, replies);
    GatherEnds(g, init, replies, cells);
    var t := Gathered(g, init, replies);
    if t.open == {} {
      DoneOnce(t, init);
    }
    if |replies| > 0 {
      assert replies[0].cells[0] in g.open;
    }
  }

  lemma ScatterInv(init: map<nat, seq<nat>>)
    ensures Inv(Scatter(init), init)
  {
  }

  /** A whole query, from the first round on. It is answered exactly when no cell is open any more, each cell
      is then recorded done once, and its requests and replies are bounded; but a query that arrives while
      the routing table is empty asks nobody, gets no reply and is never answered. */
  lemma QueryRuns(init: map<nat, seq<nat>>, replies: seq<Reply>, cells: seq<nat>)
    requires (ScatterInv(init); AdmissibleRun(Scatter(init), init, replies))
    requires forall c :: c in cells <==> c in init
    ensures (ScatterInv(init);
            var t := Gathered(Scatter(init), init, replies);
            && Inv(t, init)
            && (t.final <==> t.open == {} && init != map[])
            && (t.final ==> forall c :: c in init ==> multiset(t.done)[c] == 1)
            && (forall c :: c in init ==> t.asked[c] + t.stores[c] == init[c])
            && |replies| + Work(t, cells) <= Work(Scatter(init), cells)
            && t.got == DocsOf(replies)
            && (forall c :: c in t.failed <==> c in t.done && !Answered(replies, c))
            && (init == map[] ==> replies == [] && !t.final))
  {
    ScatterInv(init);
    GotAllDocs(Scatter(init), init, replies);
    forall c
      ensures var t := Gathered(Scatter(init), init, replies); c in t.failed <==> c in t.done && !Answered(replies, c)
    {
      FailedWithoutDocs(Scatter(init), init, replies, c);
    }
    GatherRuns(Scatter(init), init, replies, cells);
    assert init != map[] <==> init.Keys != {};
  }

  lemma DoneOnce(g: Gather, init: map<nat, seq<nat>>)
    requires CellInv(g, init) && g.open == {}
    ensures forall c :: c in init ==> multiset(g.done)[c] == 1
  {
    DistinctMultiset(g.done);
    assert forall c :: c in init ==> c in g.done;
  }

  lemma {:induction false} DistinctMultiset(a: seq<nat>)
    requires DistinctSeq(a)
    ensures forall x :: x in a ==> multiset(a)[x] == 1
  {
    if |a| > 0 {
      var n := |a| - 1;
      assert a == a[..n] + [a[n]];
      DistinctMultiset(a[..n]);
    }
  }

  // ---- what the answer holds ----

  /** All documents that the replies carry. */
  function DocsOf(replies: seq<Reply>): multiset<Item>
  {
    if |replies| == 0 then multiset{}
    else (if replies[0].Docs? then multiset(replies[0].docs) else multiset{}) + DocsOf(replies[1..])
  }

  /** Some reply brought the cell's documents. */
  predicate Answered(replies: seq<Reply>, c: nat)
  {
    exists i :: 0 <= i < |replies| && replies[i].Docs? && c in replies[i].cells
  }

  lemma ReplyGot(g: Gather, init: map<nat, seq<nat>>, r: Reply)
    requires Inv(g, init) && Admissible(g, r)
    ensures HandleReply(g, r).got == g.got + if r.Docs? then multiset(r.docs) else multiset{}
  {
    if r.Failed? {
      FailCellsKeep(g, init, r.cells);
    }
  }

  /** What the completion test and the answer rest on. */
  lemma ReplyEnds(g: Gather, init: map<nat, seq<nat>>, r: Reply)
    requires Inv(g, init) && Admissible(g, r)
    ensures var t := HandleReply(g, r); (t.final <==> t.open == {}) && (t.final <==> |t.stores| == |t.done|)
    ensures HandleReply(g, r).got == g.got + if r.Docs? then multiset(r.docs) else multiset{}
  {
    ReplyKeeps(g, init, r);
    ReplyGot(g, init, r);
  }

  lemma {:induction false} GotAllDocs(g: Gather, init: map<nat, seq<nat>>, replies: seq<Reply>)
    requires Inv(g, init) && AdmissibleRun(g, init, replies)
    ensures Gathered(g, init, replies).got == g.got + DocsOf(replies)
    decreases |replies|
  {
    if |replies| > 0 {
      ReplyKeeps(g, init, replies[0]);
      ReplyGot(g, init, replies[0]);
      GotAllDocs(HandleReply(g, replies[0]), init, replies[1..]);
    }
  }

  /** A failed reply records as failed exactly the cells it finishes. */
  lemma {:induction false} FailedAreFinished(g: Gather, init: map<nat, seq<nat>>, cells: seq<nat>, c: nat)
    requires CellInv(g, init) && DistinctSeq(cells) && forall d :: d in cells ==> d in g.open
    ensures var t := FailCells(g, cells);
            && (c in t.failed <==> c in g.failed || (c in t.done && c !in g.done))
            && (c in g.done ==> c in t.done)
  {
    if |cells| > 0 {
      var n := |cells| - 1;
      LastIsNew(cells);
      FailCellsKeep(g, init, cells[..n]);
      FailedAreFinished(g, init, cells[..n], c);
      var u := FailCells(g, cells[..n]);
      assert u.failed + [cells[n]] == u.failed + [cells[n]];
      assert cells[n] !in u.done;
    }
  }

  /** What is done stays done and gets no more replies. */
  lemma {:induction false} DoneIsOver(g: Gather, init: map<nat, seq<nat>>, replies: seq<Reply>, c: nat)
    requires Inv(g, init) && AdmissibleRun(g, init, replies) && c in g.done
    ensures !Answered(replies, c) && c in Gathered(g, init, replies).done
    decreases |replies|
  {
    if |replies| > 0 {
      ReplyKeeps(g, init, replies[0]);
      assert c !in g.open;
      if replies[0].Failed? {
        FailedAreFinished(g, init, replies[0].cells, c);
      }
      DoneIsOver(HandleReply(g, replies[0]), init, replies[1..], c);
      assert forall i :: 1 <= i < |replies| ==> replies[i] == replies[1..][i - 1];
    }
  }

  lemma AnsweredNext(replies: seq<Reply>, c: nat)
    requires |replies| > 0
    ensures Answered(replies, c) <==> (replies[0].Docs? && c in replies[0].cells) || Answered(replies[1..], c)
  {
    assert forall i :: 1 <= i < |replies| ==> replies[i] == replies[1..][i - 1];
    if i :| 0 <= i < |replies[1..]| && replies[1..][i].Docs? && c in replies[1..][i].cells {
      assert replies[i + 1].Docs?;
    }
  }

  /** The failed cells of the answer are exactly those that finished without their documents. */
  lemma {:induction false} FailedWithoutDocs(g: Gather, init: map<nat, seq<nat>>, replies: seq<Reply>, c: nat)
    requires Inv(g, init) && AdmissibleRun(g, init, replies) && c !in g.done && c !in g.failed
    ensures var t := Gathered(g, init, replies); c in t.failed <==> c in t.done && !Answered(replies, c)
    decreases |replies|
  {
    if |replies| > 0 {
      var r := replies[0];
      var t := HandleReply(g, r);
      ReplyKeeps(g, init, r);
      AnsweredNext(replies, c);
      if r.Failed? {
        FailedAreFinished(g, init, r.cells, c);
      }
      if c in t.done {
        DoneIsOver(t, init, replies[1..], c);
        FailedStays(t, init, replies[1..], c);
      } else {
        FailedWithoutDocs(t, init, replies[1..], c);
      }
    }
  }

  lemma {:induction false} FailedStays(g: Gather, init: map<nat, seq<nat>>, replies: seq<Reply>, c: nat)
    requires Inv(g, init) && AdmissibleRun(g, init, replies) && c in g.done
    ensures c in Gathered(g, init, replies).failed <==> c in g.failed
    decreases |replies|
  {
    if |replies| > 0 {
      ReplyKeeps(g, init, replies[0]);
      if replies[0].Failed? {
        FailedAreFinished(g, init, replies[0].cells, c);
      }
      FailedStays(HandleReply(g, replies[0]), init, replies[1..], c);
    }
  }

  /** The retries a failed reply causes: each cell with stores left goes to the first of them. */
  function Retries(stores: map<nat, seq<nat>>, cells: seq<nat>): seq<(nat, nat)>
    requires forall c :: c in cells ==> c in stores
  {
    if |cells| == 0 then []
    else
      var n := |cells| - 1;
      Retries(stores, cells[..n]) + (if stores[cells[n]] != [] then [(cells[n], stores[cells[n]][0])] else [])
  }

  lemma {:induction false} Untouched(g: Gather, cells: seq<nat>, c: nat)
    requires forall d :: d in cells ==> d in g.stores && d in g.asked
    requires c in g.stores && c !in cells
    ensures FailCells(g, cells).stores[c] == g.stores[c]
  {
    if |cells| > 0 {
      Untouched(g, cells[..|cells| - 1], c);
    }
  }

  lemma FailNext(g: Gather, cells: seq<nat>, k: nat)
    requires k < |cells| && DistinctSeq(cells) && forall c :: c in cells ==> c in g.stores && c in g.asked
    ensures FailCells(g, cells[..k + 1]) == FailCell(FailCells(g, cells[..k]), cells[k])
    ensures FailCells(g, cells[..k]).stores[cells[k]] == g.stores[cells[k]]
    ensures Retries(g.stores, cells[..k + 1]) ==
            Retries(g.stores, cells[..k]) + if g.stores[cells[k]] != [] then [(cells[k], g.stores[cells[k]][0])] else []
  {
    assert cells[..k + 1][..k] == cells[..k];
    Untouched(g, cells[..k], cells[k]);
  }

  lemma AddNext(got: multiset<Item>, items: seq<Item>, k: nat)
    requires k < |items|
    ensures got + multiset(items[..k]) + multiset{items[k]} == got + multiset(items[..k + 1])
  {
    assert items[..k + 1] == items[..k] + [items[k]];
  }

  class QueryState {
    var stores: map<nat, seq<nat>>
    var done: seq<nat>
    var errors: seq<nat>
    const docs: OrderedArray

    ghost predicate Holds(g: Gather)
      reads this, docs
    {
      && stores == g.stores && done == g.done && errors == g.failed
      && docs.Valid()
      && (!g.final ==> Smallest(multiset(docs.items), g.got, docs.capacity))
    }

    constructor (stores: map<nat, seq<nat>>, limit: nat)
      ensures Holds(Scatter(stores)) && fresh(docs)
      ensures docs.capacity == if limit > 1000 then 1000 else limit
    {
      this.stores, done, errors := stores, [], [];
      docs := new OrderedArray(if limit > 1000 then 1000 else limit);
    }

    method RetryCells(cells: seq<nat>, ghost g: Gather, ghost init: map<nat, seq<nat>>) returns (sent: seq<(nat, nat)>)
      requires stores == g.stores && done == g.done && errors == g.failed
      requires Inv(g, init) && DistinctSeq(cells) && forall c :: c in cells ==> c in g.open
      modifies `stores, `done, `errors
      ensures var t := FailCells(g, cells); stores == t.stores && done == t.done && errors == t.failed
      ensures sent == Retries(g.stores, cells)
    {
      sent := [];
      ghost var t := g;
      for k := 0 to |cells|
        invariant t == FailCells(g, cells[..k]) && stores == t.stores && done == t.done && errors == t.failed
        invariant sent == Retries(g.stores, cells[..k])
      {
        FailNext(g, cells, k);
        var more := RetryCell(cells[k], t);
        sent := sent + more;
        t := FailCell(t, cells[k]);
      }
      assert cells[..|cells|] == cells;
    }

    /** Either the request for the next store, or the cell is done with an error. */
    method RetryCell(c: nat, ghost t: Gather) returns (sent: seq<(nat, nat)>)
      requires stores == t.stores && done == t.done && errors == t.failed && c in t.stores && c in t.asked
      modifies `stores, `done, `errors
      ensures var u := FailCell(t, c); stores == u.stores && done == u.done && errors == u.failed
      ensures sent == if t.stores[c] != [] then [(c, t.stores[c][0])] else []
    {
      sent := [];
      if |stores[c]| > 0 {
        sent := [(c, stores[c][0])];
        stores := stores[c := stores[c][1..]];
      } else {
        errors := errors + [c];
        done := done + [c];
      }
    }

    method PutDocs(items: seq<Item>, ghost got: multiset<Item>)
      requires docs.Valid() && Smallest(multiset(docs.items), got, docs.capacity)
      modifies docs
      ensures docs.Valid() && Smallest(multiset(docs.items), got + multiset(items), docs.capacity)
    {
      for k := 0 to |items|
        invariant docs.Valid() && Smallest(multiset(docs.items), got + multiset(items[..k]), docs.capacity)
      {
        docs.Put(items[k], got + multiset(items[..k]));
        AddNext(got, items, k);
      }
      assert items[..|items|] == items;
    }

    /** The reply's effect before the completion test. */
    method Absorb(r: Reply, ghost g: Gather, ghost init: map<nat, seq<nat>>) returns (sent: seq<(nat, nat)>)
      requires Holds(g) && Inv(g, init) && Admissible(g, r) && !g.final
      modifies this, docs
      ensures var t := HandleReply(g, r);
              && stores == t.stores && done == t.done && errors == t.failed
              && docs.Valid() && Smallest(multiset(docs.items), t.got, docs.capacity)
      ensures sent == if r.Failed? then Retries(g.stores, r.cells) else []
    {
      sent := [];
      match r {
        case Failed(cells) =>
          FailCellsKeep(g, init, cells);
          sent := RetryCells(cells, g, init);
        case Docs(cells, items) =>
          PutDocs(items, g.got);
          done := done + cells;
      }
    }

    /** One reply of an ordered query; answer is the documents and failed cells sent to the client. */
    method OnReply(r: Reply, ghost g: Gather, ghost init: map<nat, seq<nat>>)
      returns (sent: seq<(nat, nat)>, answer: Option<(seq<Item>, seq<nat>)>)
      requires Holds(g) && Inv(g, init) && Admissible(g, r)
      modifies this, docs
      ensures Holds(HandleReply(g, r))
      ensures sent == if r.Failed? then Retries(g.stores, r.cells) else []
      ensures answer.Some? <==> HandleReply(g, r).open == {}
      ensures answer.Some? ==>
                && Ascending(answer.value.0)
                && Smallest(multiset(answer.value.0), g.got + (if r.Docs? then multiset(r.docs) else multiset{}), docs.capacity)
                && answer.value.1 == HandleReply(g, r).failed
    {
      assert r.cells[0] in g.open;
      sent := Absorb(r, g, init);
      answer := None;
      ReplyEnds(g, init, r);
      if |stores| == |done| {
        var items := docs.Finalize();
        answer := Some((items, errors));
      }
    }
  }
}
