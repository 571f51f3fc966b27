/** The placement driver's cell cache: a range tree and three maps that must agree. */
module CellCaches {
  import opened Keys
  import opened Cells
  import opened CellTrees
  import opened Splits

  datatype CellInfo = CellInfo(meta: Cell, leader: Option<Peer>)

  type Index = map<nat, map<nat, CellInfo>>

  function Lookup(index: Index, store: nat, id: nat): Option<CellInfo>
  {
    if store in index && id in index[store] then Some(index[store][id]) else None
  }

  /** delete(index[store], id): a missing store is left alone. */
  function Drop(index: Index, store: nat, id: nat): (r: Index)
    ensures forall s, i :: Lookup(r, s, i) == if s == store && i == id then None else Lookup(index, s, i)
  {
    if store in index then index[store := index[store] - {id}] else index
  }

  /** index[store][id] = info, creating the store's map when it is missing. */
  function Put(index: Index, store: nat, info: CellInfo): (r: Index)
    ensures forall s, i :: Lookup(r, s, i) == if s == store && i == info.meta.id then Some(info) else Lookup(index, s, i)
  {
    var inner := if store in index then index[store] else map[];
    index[store := inner[info.meta.id := info]]
  }

  predicate HasLeader(info: CellInfo)
  {
    info.leader.Some? && info.leader.value.id != 0
  }

  /** One of the first n peers is the leader peer (or, for asLeader == false, another peer) on the store. */
  ghost predicate Role(info: CellInfo, n: nat, store: nat, asLeader: bool)
    requires n <= |info.meta.peers|
  {
    HasLeader(info) &&
    exists i :: 0 <= i < n && info.meta.peers[i].storeId == store
                && (info.meta.peers[i].id == info.leader.value.id) == asLeader
  }

  /** The cell's leader is one of its peers, and that peer is on the store. */
  ghost predicate Leads(info: CellInfo, store: nat)
  {
    info.leader.Some? && info.leader.value.id != 0 &&
    exists p :: p in info.meta.peers && p.storeId == store && p.id == info.leader.value.id
  }

  /** The cell has a leader, and another of its peers is on the store. */
  ghost predicate Follows(info: CellInfo, store: nat)
  {
    info.leader.Some? && info.leader.value.id != 0 &&
    exists p :: p in info.meta.peers && p.storeId == store && p.id != info.leader.value.id
  }

  lemma RoleIs(info: CellInfo, store: nat)
    ensures Role(info, |info.meta.peers|, store, true) <==> Leads(info, store)
    ensures Role(info, |info.meta.peers|, store, false) <==> Follows(info, store)
  {
    if Leads(info, store) {
      var p :| p in info.meta.peers && p.storeId == store && p.id == info.leader.value.id;
      var k :| 0 <= k < |info.meta.peers| && info.meta.peers[k] == p;
    }
    if Follows(info, store) {
      var p :| p in info.meta.peers && p.storeId == store && p.id != info.leader.value.id;
      var k :| 0 <= k < |info.meta.peers| && info.meta.peers[k] == p;
    }
  }

  /** What one of the two role indexes is when recomputed from the cached cells. */
  ghost predicate Recomputed(index: Index, cells: map<nat, CellInfo>, asLeader: bool)
  {
    forall s, i :: Lookup(index, s, i) ==
                   if i in cells && Role(cells[i], |cells[i].meta.peers|, s, asLeader) then Some(cells[i]) else None
  }

  /** index is `was` without the cell on the stores of its first n peers. */
  ghost predicate Dropped(index: Index, was: Index, info: CellInfo, n: nat)
    requires n <= |info.meta.peers|
  {
    forall s, i :: Lookup(index, s, i) ==
                   if i == info.meta.id && s in StoreIds(info.meta.peers[..n]) then None else Lookup(was, s, i)
  }

  /** index is `was` plus the cell on the stores where one of its first n peers has the role. */
  ghost predicate Placed(index: Index, was: Index, info: CellInfo, n: nat, asLeader: bool)
    requires n <= |info.meta.peers|
  {
    forall s, i :: Lookup(index, s, i) ==
                   if i == info.meta.id && Role(info, n, s, asLeader) then Some(info) else Lookup(was, s, i)
  }

  lemma DropStep(index: Index, was: Index, info: CellInfo, n: nat)
    requires n < |info.meta.peers| && Dropped(index, was, info, n)
    ensures Dropped(Drop(index, info.meta.peers[n].storeId, info.meta.id), was, info, n + 1)
  {
    var now, later := StoreIds(info.meta.peers[..n]), StoreIds(info.meta.peers[..n + 1]);
    assert later == now + [info.meta.peers[n].storeId];
  }

  lemma DropAll(index: Index, was: Index, cells: map<nat, CellInfo>, id: nat, asLeader: bool)
    requires id in cells && cells[id].meta.id == id
    requires Recomputed(was, cells, asLeader) && Dropped(index, was, cells[id], |cells[id].meta.peers|)
    ensures Recomputed(index, cells - {id}, asLeader)
  {
    var peers := cells[id].meta.peers;
    assert peers[..|peers|] == peers;
    forall s | Role(cells[id], |peers|, s, asLeader)
      ensures s in StoreIds(peers)
    {
      var k :| 0 <= k < |peers| && peers[k].storeId == s;
      assert StoreIds(peers)[k] == s;
    }
  }

  lemma PlaceStep(index: Index, was: Index, info: CellInfo, n: nat, asLeader: bool)
    requires n < |info.meta.peers| && Placed(index, was, info, n, asLeader) && HasLeader(info)
    ensures (info.meta.peers[n].id == info.leader.value.id) == asLeader ==>
              Placed(Put(index, info.meta.peers[n].storeId, info), was, info, n + 1, asLeader)
    ensures (info.meta.peers[n].id == info.leader.value.id) != asLeader ==> Placed(index, was, info, n + 1, asLeader)
  {
    forall s
      ensures Role(info, n + 1, s, asLeader) <==>
              Role(info, n, s, asLeader) ||
              (info.meta.peers[n].storeId == s && (info.meta.peers[n].id == info.leader.value.id) == asLeader)
    {
    }
  }

  lemma PlaceAll(index: Index, was: Index, cells: map<nat, CellInfo>, info: CellInfo, asLeader: bool)
    requires info.meta.id !in cells
    requires Recomputed(was, cells, asLeader) && Placed(index, was, info, |info.meta.peers|, asLeader)
    ensures Recomputed(index, cells[info.meta.id := info], asLeader)
  {
  }

  ghost predicate WellKeyed(cells: map<nat, CellInfo>)
  {
    forall i :: i in cells ==> cells[i].meta.id == i
  }

  /** Tree entries are current metas of cached cells. */
  ghost predicate TreeCurrent(tree: set<Cell>, cells: map<nat, CellInfo>)
  {
    forall c :: c in tree ==> c.id in cells && cells[c.id].meta == c
  }

  /** The tree after addOrUpdate: the old meta is removed, if the tree can find it, and the new one put in. */
  ghost function Refreshed(tree: set<Cell>, cells: map<nat, CellInfo>, meta: Cell): set<Cell>
  {
    TreeUpdate(if meta.id in cells then TreeRemove(tree, cells[meta.id].meta) else tree, meta)
  }

  /** The cell's old meta has an empty range, which Remove cannot find, and the new one does not replace it. */
  ghost predicate Lingers(tree: set<Cell>, cells: map<nat, CellInfo>, meta: Cell)
  {
    meta.id in cells &&
    var was := cells[meta.id].meta;
    was in tree && was != meta && !NonEmpty(was) && !Touches(was, meta)
  }

  /** The tree stays tidy and current if and only if the new range is well formed and the old one does not
      linger. */
  lemma StaysCurrentIff(tree: set<Cell>, cells: map<nat, CellInfo>, info: CellInfo)
    requires Tidy(tree) && TreeCurrent(tree, cells) && WellKeyed(cells)
    ensures var meta := info.meta; var now := Refreshed(tree, cells, meta);
            Tidy(now) && TreeCurrent(now, cells[meta.id := info]) <==> WellFormed(meta) && !Lingers(tree, cells, meta)
  {
    var meta := info.meta;
    var rest := if meta.id in cells then TreeRemove(tree, cells[meta.id].meta) else tree;
    RestIs(tree, cells, meta);
    TidyIff(rest, meta);
    var now := Refreshed(tree, cells, meta);
    if WellFormed(meta) {
      assert forall c :: c in rest && c.id == meta.id ==> c == cells[meta.id].meta;
      if Lingers(tree, cells, meta) {
        assert cells[meta.id].meta in now;
      }
    }
  }

  /** What Remove leaves: everything but the old meta, and that too if its range is empty. */
  lemma RestIs(tree: set<Cell>, cells: map<nat, CellInfo>, meta: Cell)
    requires Tidy(tree) && TreeCurrent(tree, cells) && WellKeyed(cells)
    ensures var rest := if meta.id in cells then TreeRemove(tree, cells[meta.id].meta) else tree;
            && Tidy(rest)
            && forall c :: c in rest <==> c in tree && (c.id == meta.id ==> !NonEmpty(c))
  {
    OrderLaws();
    if meta.id in cells {
      var was := cells[meta.id].meta;
      TidyRemove(tree, was);
      assert forall c :: c in tree && c.id == meta.id ==> c == was;
    }
  }

  /** BadRequest is the server's own refusal, before the cache is asked. */
  datatype Outcome = Updated(event: Event) | StaleCell | SaveFailed | NilLeader | BadRequest

  datatype Event = Created | RangeChanged | PeersChanged | LeaderChanged | NoEvent

  /** What an accepted heartbeat announces: a new cell, a later range version, else a later membership version,
      else another leader. */
  function EventOf(cells: map<nat, CellInfo>, source: CellInfo): Event
  {
    if source.meta.id !in cells then Created
    else
      var was := cells[source.meta.id];
      if was.meta.epoch.cellVer < source.meta.epoch.cellVer then RangeChanged
      else if was.meta.epoch.confVer < source.meta.epoch.confVer then PeersChanged
      else if was.leader.None? || source.leader.None? || was.leader.value.id != source.leader.value.id then LeaderChanged
      else NoEvent
  }

  /** The heartbeats that move on never change the start of a cell whose cached range is empty. */
  ghost predicate Pinned(cells: map<nat, CellInfo>, beats: seq<(CellInfo, bool)>)
  {
    forall k :: 0 <= k < |beats| && beats[k].0.meta.id in cells && !NonEmpty(cells[beats[k].0.meta.id].meta) ==>
                  beats[k].0.meta.start == cells[beats[k].0.meta.id].meta.start
  }

  /** Among the heartbeats themselves: well-formed ranges, and an empty range keeps its start. */
  ghost predicate KeepStarts(beats: seq<(CellInfo, bool)>)
  {
    && (forall k :: 0 <= k < |beats| ==> WellFormed(beats[k].0.meta))
    && (forall i, k :: 0 <= i < k < |beats| && beats[i].0.meta.id == beats[k].0.meta.id && !NonEmpty(beats[i].0.meta) ==>
                         beats[k].0.meta.start == beats[i].0.meta.start)
  }

  class CellCache {
    const tree: CellTree
    var cells: map<nat, CellInfo>
    var leaders: Index
    var followers: Index

    /** The maps agree, whatever ranges the cells have. */
    ghost predicate Valid()
      reads this, tree
    {
      && tree.Valid()
      && WellKeyed(cells)
      && Recomputed(leaders, cells, true)
      && Recomputed(followers, cells, false)
    }

    /** The tree agrees too. */
    ghost predicate TreeOk()
      reads this, tree
    {
      Tidy(tree.View()) && TreeCurrent(tree.View(), cells)
    }

    constructor ()
      ensures Valid() && TreeOk() && fresh(tree) && cells == map[] && tree.View() == {}
    {
      tree := new CellTree();
      cells, leaders, followers := map[], map[], map[];
    }

    method DropRoles(origin: CellInfo)
      modifies `leaders, `followers
      ensures Dropped(leaders, old(leaders), origin, |origin.meta.peers|)
      ensures Dropped(followers, old(followers), origin, |origin.meta.peers|)
    {
      var n := 0;
      while n < |origin.meta.peers|
        invariant 0 <= n <= |origin.meta.peers|
        invariant Dropped(leaders, old(leaders), origin, n) && Dropped(followers, old(followers), origin, n)
      {
        DropStep(leaders, old(leaders), origin, n);
        DropStep(followers, old(followers), origin, n);
        leaders := Drop(leaders, origin.meta.peers[n].storeId, origin.meta.id);
        followers := Drop(followers, origin.meta.peers[n].storeId, origin.meta.id);
        n := n + 1;
      }
    }

    method PlaceRoles(origin: CellInfo)
      modifies `leaders, `followers
      ensures Placed(leaders, old(leaders), origin, |origin.meta.peers|, true)
      ensures Placed(followers, old(followers), origin, |origin.meta.peers|, false)
    {
      if !HasLeader(origin) {
        return;
      }
      var n := 0;
      while n < |origin.meta.peers|
        invariant 0 <= n <= |origin.meta.peers|
        invariant Placed(leaders, old(leaders), origin, n, true) && Placed(followers, old(followers), origin, n, false)
      {
        PlaceStep(leaders, old(leaders), origin, n, true);
        PlaceStep(followers, old(followers), origin, n, false);
        var peer := origin.meta.peers[n];
        if peer.id == origin.leader.value.id {
          leaders := Put(leaders, peer.storeId, origin);
        } else {
          followers := Put(followers, peer.storeId, origin);
        }
        n := n + 1;
      }
    }

    method RemoveCell(id: nat)
      requires Valid() && id in cells
      modifies this, tree
      ensures Valid()
      ensures cells == old(cells) - {id}
      ensures tree.View() == TreeRemove(old(tree.View()), old(cells)[id].meta)
    {
      var origin := cells[id];
      var _ := tree.Remove(origin.meta);
      cells := cells - {id};
      DropRoles(origin);
      DropAll(leaders, old(leaders), old(cells), id, true);
      DropAll(followers, old(followers), old(cells), id, false);
    }

    method AddOrUpdate(origin: CellInfo)
      requires Valid()
      modifies this, tree
      ensures Valid()
      ensures cells == old(cells)[origin.meta.id := origin]
      ensures tree.View() == Refreshed(old(tree.View()), old(cells), origin.meta)
    {
      if origin.meta.id in cells {
        RemoveCell(origin.meta.id);
      }
      ghost var l, f, c := leaders, followers, cells;
      tree.Update(origin.meta);
      cells := cells[origin.meta.id := origin];
      PlaceRoles(origin);
      PlaceAll(leaders, l, c, origin, true);
      PlaceAll(followers, f, c, origin, false);
    }

    /** A cell with id 0 counts as none. */
    method SearchCell(key: Key) returns (r: Option<CellInfo>)
      requires Valid()
      ensures r.Some? <==> exists c :: Found(tree.View(), key, c) && c.id != 0 && c.id in cells
      ensures forall c :: Found(tree.View(), key, c) && r.Some? ==> r.value == cells[c.id]
      ensures TreeOk() && r.Some? ==> Contains(r.value.meta, key) && r.value.meta in tree.View()
    {
      var cell := tree.Search(key);
      if cell.id == 0 {
        return None;
      }
      assert Found(tree.View(), key, cell);
      return if cell.id in cells then Some(cells[cell.id]) else None;
    }

    method StoreLeaderCount(store: nat) returns (n: nat)
      requires Valid()
      ensures n == |set i | i in cells && Leads(cells[i], store)|
    {
      forall i | i in cells
        ensures Role(cells[i], |cells[i].meta.peers|, store, true) <==> Leads(cells[i], store)
      {
        RoleIs(cells[i], store);
      }
      assert (set i | i in cells && Role(cells[i], |cells[i].meta.peers|, store, true)) == set i | i in cells && Leads(cells[i], store);
      ghost var led := set i | i in cells && Role(cells[i], |cells[i].meta.peers|, store, true);
      if store !in leaders {
        forall i
          ensures i !in led
        {
          assert Lookup(leaders, store, i).None?;
        }
        assert led == {};
        return 0;
      }
      forall i
        ensures i in leaders[store].Keys <==> i in led
      {
        assert Lookup(leaders, store, i).Some? <==> i in led;
      }
      assert leaders[store].Keys == led;
      return |leaders[store]|;
    }

    /** saved says whether persisting the new meta succeeded. */
    method HandleCellHeartbeat(source: CellInfo, saved: bool) returns (r: Outcome)
      requires Valid()
      modifies this, tree
      ensures Valid()
      ensures !r.Updated? ==> cells == old(cells) && tree.View() == old(tree.View())
      ensures r.Updated? ==> cells == old(cells)[source.meta.id := source]
                             && tree.View() == Refreshed(old(tree.View()), old(cells), source.meta)
      ensures old(TreeOk()) && r.Updated? ==>
                (TreeOk() <==> WellFormed(source.meta) && !Lingers(old(tree.View()), old(cells), source.meta))
      ensures r.StaleCell? <==> source.meta.id in old(cells)
                                && EpochStale(source.meta.epoch, old(cells)[source.meta.id].meta.epoch)
      ensures r.NilLeader? <==> source.meta.id in old(cells)
                                && source.meta.epoch == old(cells)[source.meta.id].meta.epoch
                                && old(cells)[source.meta.id].leader.Some? && source.leader.None?
      ensures r.SaveFailed? <==> !saved && (source.meta.id in old(cells) ==>
                                              && !EpochStale(source.meta.epoch, old(cells)[source.meta.id].meta.epoch)
                                              && source.meta.epoch != old(cells)[source.meta.id].meta.epoch)
      ensures r.Updated? ==> r.event == EventOf(old(cells), source)
      ensures !r.BadRequest?
      ensures forall i :: i in old(cells) ==> i in cells && EpochLe(old(cells)[i].meta.epoch, cells[i].meta.epoch)
    {
      if Tidy(tree.View()) && TreeCurrent(tree.View(), cells) {
        StaysCurrentIff(tree.View(), cells, source);
      }
      if source.meta.id !in cells {
        if !saved {
          return SaveFailed;
        }
        AddOrUpdate(source);
        return Updated(Created);
      }
      var current := cells[source.meta.id];
      if EpochStale(source.meta.epoch, current.meta.epoch) {
        return StaleCell;
      }
      var rangeChanged := source.meta.epoch.cellVer > current.meta.epoch.cellVer;
      var peersChanged := source.meta.epoch.confVer > current.meta.epoch.confVer;
      if rangeChanged || peersChanged {
        if !saved {
          return SaveFailed;
        }
        AddOrUpdate(source);
        return Updated(if rangeChanged then RangeChanged else PeersChanged);
      }
      if current.leader.Some? && source.leader.None? {
        // source.LeaderPeer.ID is read through a nil pointer here
        return NilLeader;
      }
      var leaderChanged := current.leader.None? || current.leader.value.id != source.leader.value.id;
      AddOrUpdate(source);
      return Updated(if leaderChanged then LeaderChanged else NoEvent);
    }

    /** The server's guards in front of the cache: a heartbeat may lack a leader only if the cell has one peer. */
    method CellHeartbeat(source: CellInfo, saved: bool) returns (r: Outcome)
      requires Valid()
      modifies this, tree
      ensures Valid()
      ensures r.BadRequest? <==> (source.leader.None? && |source.meta.peers| != 1) || source.meta.id == 0
      ensures r.NilLeader? <==> source.leader.None? && |source.meta.peers| == 1 && source.meta.id != 0
                                && source.meta.id in old(cells)
                                && source.meta.epoch == old(cells)[source.meta.id].meta.epoch
                                && old(cells)[source.meta.id].leader.Some?
      ensures !r.Updated? ==> cells == old(cells) && tree.View() == old(tree.View())
      ensures r.Updated? ==> cells == old(cells)[source.meta.id := source]
                             && tree.View() == Refreshed(old(tree.View()), old(cells), source.meta)
      ensures source.meta.id != 0 && source.leader.Some? && source.meta.id !in old(cells) && saved ==> r.Updated?
    {
      if source.leader.None? && |source.meta.peers| != 1 {
        return BadRequest;
      }
      if source.meta.id == 0 {
        return BadRequest;
      }
      r := HandleCellHeartbeat(source, saved);
    }

    /** After any sequence of heartbeats the maps agree and no epoch went down. The tree agrees as well if
        ranges are well formed and a cell that became empty keeps its start. */
    method Run(beats: seq<(CellInfo, bool)>)
      requires Valid()
      modifies this, tree
      ensures Valid()
      ensures forall i :: i in old(cells) ==> i in cells && EpochLe(old(cells)[i].meta.epoch, cells[i].meta.epoch)
      ensures old(TreeOk()) && KeepStarts(beats) && Pinned(old(cells), beats) ==> TreeOk()
    {
      for k := 0 to |beats|
        invariant Valid()
        invariant forall i :: i in old(cells) ==> i in cells && EpochLe(old(cells)[i].meta.epoch, cells[i].meta.epoch)
        invariant old(TreeOk()) && KeepStarts(beats) && Pinned(old(cells), beats) ==> TreeOk() && Pinned(cells, beats[k..])
      {
        assert beats[k..][0] == beats[k];
        ghost var c := cells;
        var _ := HandleCellHeartbeat(beats[k].0, beats[k].1);
        if KeepStarts(beats) && Pinned(c, beats[k..]) {
          PinnedNext(c, cells, beats, k);
        }
      }
    }
  }

  lemma PinnedNext(c: map<nat, CellInfo>, d: map<nat, CellInfo>, beats: seq<(CellInfo, bool)>, k: nat)
    requires k < |beats| && KeepStarts(beats) && Pinned(c, beats[k..])
    requires d == c || d == c[beats[k].0.meta.id := beats[k].0]
    ensures Pinned(d, beats[k + 1..])
  {
    var later := beats[k + 1..];
    forall j | 0 <= j < |later| && later[j].0.meta.id in d && !NonEmpty(d[later[j].0.meta.id].meta)
      ensures later[j].0.meta.start == d[later[j].0.meta.id].meta.start
    {
      assert later[j] == beats[k..][j + 1] == beats[k + 1 + j];
    }
  }

  /** A split at the start key, reported by both parts: whatever key of the right part is looked up, it is found
      exactly if the right part reported last. Otherwise the left part, which has no keys, hides it. */
  method HeartbeatsAfterSplitAtStart(op: SplitOp, leftLeader: Peer, rightLeader: Peer, rightLast: bool, key: Key)
    returns (found: Option<CellInfo>)
    requires Accepted(op) && op.key == op.cell.start && |op.key| > 0 && Contains(op.cell, key)
    requires op.cell.id != 0 && op.newCell != 0 && op.cell.id != op.newCell
    ensures found.Some? <==> rightLast
    ensures found.Some? ==> found.value.meta == Right(op)
  {
    var left, right := CellInfo(Left(op), Some(leftLeader)), CellInfo(Right(op), Some(rightLeader));
    SplitAtStart(op);
    OrderLaws();
    var cache := new CellCache();
    var first, second := if rightLast then left else right, if rightLast then right else left;
    var _ := cache.CellHeartbeat(first, true);
    TidyIff({}, first.meta);
    assert cache.tree.View() == {first.meta};
    var _ := cache.CellHeartbeat(second, true);
    TidyIff({first.meta}, second.meta);
    assert cache.tree.View() == {second.meta};
    found := cache.SearchCell(key);
    FoundIsOwner({second.meta}, key, second.meta);
  }

  /** A single-peer cell whose heartbeat comes first with and then without its leader. */
  method NilLeaderReached(meta: Cell, leader: Peer) returns (r: Outcome)
    requires meta.id != 0 && |meta.peers| == 1
    ensures r.NilLeader?
  {
    var cache := new CellCache();
    var _ := cache.CellHeartbeat(CellInfo(meta, Some(leader)), true);
    r := cache.CellHeartbeat(CellInfo(meta, None), true);
  }
}
