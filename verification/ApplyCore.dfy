/** What a committed raft entry does to a cell: the part of apply that every replica computes alike. */
module ApplyCore {
  import opened Keys
  import opened Cells
  import opened ApplyStates

  datatype Body =
    | Write(ops: seq<nat>)
    | ChangePeer(add: bool, peer: Peer)
    | Split(rawKey: Key, newCell: nat, newPeers: seq<nat>)    // rawKey carries the one-byte data prefix
    | RaftLogGC(index: nat, term: nat)
    | TransferLeader
    | OtherAdmin

  /** uuid and epoch are the header of the request. */
  datatype Request = Request(uuid: nat, epoch: Epoch, body: Body)

  datatype Payload = Empty | Normal(req: Request) | ConfChange(req: Request)

  datatype Entry = Entry(index: nat, term: nat, payload: Payload)

  /** saved: the cell as last written to the engine; writes: the write requests executed so far, in order;
      born: the cells split off so far. */
  datatype Core = Core(cell: Cell, saved: Cell, apply: Apply, appliedTerm: nat, writes: seq<Request>, born: seq<Cell>)

  datatype Resp = StaleEpoch(cell: Cell) | PeerChanged(cell: Cell) | SplitDone(left: Cell, right: Cell) | GCDone | Written(ops: seq<nat>)

  /** What apply posts back to the raft side. */
  datatype Result =
    | PeerResult(peer: Peer, cell: Cell)
    | SplitResult(left: Cell, right: Cell)
    | GCResult(index: nat, term: nat, firstIndex: nat)

  /** The new state, the response for the waiting client (if the code builds one) and the result. */
  datatype Outcome = Outcome(core: Core, resp: Option<Resp>, result: Option<Result>)

  /** A write needs a current range version, a membership change a current membership version. */
  predicate CheckEpoch(cell: Cell, req: Request)
  {
    match req.body
    case Write(_) => cell.epoch.cellVer <= req.epoch.cellVer
    case Split(_, _, _) => cell.epoch.cellVer <= req.epoch.cellVer
    case ChangePeer(_, _) => cell.epoch.confVer <= req.epoch.confVer
    case TransferLeader => EpochLe(cell.epoch, req.epoch)
    case RaftLogGC(_, _) => true
    case OtherAdmin => true
  }

  function Refuse(core: Core): Outcome
  {
    Outcome(core, Some(StaleEpoch(core.cell)), None)
  }

  /** The membership version goes up even when nothing changes, but then the cell is not saved. */
  function ExecChangePeer(core: Core, add: bool, peer: Peer): Outcome
  {
    var epoch := core.cell.epoch.(confVer := core.cell.epoch.confVer + 1);
    if add == OnStore(core.cell.peers, peer.storeId) then
      Outcome(core.(cell := core.cell.(epoch := epoch)), None, None)
    else
      var peers := if add then core.cell.peers + [peer] else WithoutStore(core.cell.peers, peer.storeId);
      var cell := core.cell.(epoch := epoch, peers := peers);
      Outcome(core.(cell := cell, saved := cell), Some(PeerChanged(cell)), Some(PeerResult(peer, cell)))
  }

  /** The guards of a split with a given key, after the data prefix has been cut off. */
  predicate SplitAccepted(cell: Cell, key: Key, newPeers: seq<nat>)
  {
    Le(cell.start, key) && Contains(cell, key) && |newPeers| == |cell.peers|
  }

  function NewPeers(ids: seq<nat>, peers: seq<Peer>): (r: seq<Peer>)
    requires |ids| == |peers|
    ensures |r| == |ids|
    ensures forall i :: 0 <= i < |r| ==> r[i] == Peer(ids[i], peers[i].storeId)
  {
    seq(|ids|, i requires 0 <= i < |ids| => Peer(ids[i], peers[i].storeId))
  }

  /** The cell keeps [start, key); the new one gets [key, end). */
  function SplitCell(cell: Cell, key: Key, newCell: nat, newPeers: seq<nat>): (Cell, Cell)
    requires |newPeers| == |cell.peers|
  {
    var epoch := cell.epoch.(cellVer := cell.epoch.cellVer + 1);
    (cell.(end := key, epoch := epoch), Cell(newCell, key, cell.end, epoch, NewPeers(newPeers, cell.peers)))
  }

  function ExecSplit(core: Core, rawKey: Key, newCell: nat, newPeers: seq<nat>): Outcome
  {
    if |rawKey| == 0 then Refuse(core)
    else if !SplitAccepted(core.cell, rawKey[1..], newPeers) then Outcome(core, None, None)
    else
      var (left, right) := SplitCell(core.cell, rawKey[1..], newCell, newPeers);
      Outcome(core.(cell := left, saved := left, born := core.born + [right]), Some(SplitDone(left, right)), Some(SplitResult(left, right)))
  }

  function ExecRaftGC(core: Core, index: nat, term: nat): Outcome
  {
    match Compact(core.apply, index, term)
    case NoNeed => Outcome(core, None, None)
    case Refused => Refuse(core)
    case Truncated(apply, gc) => Outcome(core.(apply := apply), Some(GCDone), Some(GCResult(gc.index, term, gc.firstIndex)))
  }

  function Exec(core: Core, req: Request): Outcome
  {
    match req.body
    case Write(ops) => Outcome(core.(writes := core.writes + [req]), Some(Written(ops)), None)
    case ChangePeer(add, peer) => ExecChangePeer(core, add, peer)
    case Split(rawKey, newCell, newPeers) => ExecSplit(core, rawKey, newCell, newPeers)
    case RaftLogGC(index, term) => ExecRaftGC(core, index, term)
    case TransferLeader => Outcome(core, None, None)
    case OtherAdmin => Outcome(core, None, None)
  }

  function ApplyRequest(core: Core, req: Request, index: nat): Outcome
  {
    var o := if CheckEpoch(core.cell, req) then Exec(core, req) else Refuse(core);
    o.(core := o.core.(apply := o.core.apply.(applied := index)))
  }

  function ApplyEntry(core: Core, e: Entry): Outcome
  {
    match e.payload
    case Empty => Outcome(core.(apply := core.apply.(applied := e.index), appliedTerm := e.term), None, None)
    case Normal(req) => ApplyRequest(core, req, e.index)
    case ConfChange(req) => ApplyRequest(core, req, e.index)
  }

  /** The request takes the peer with that id out of its own cell. */
  predicate RemovesSelf(cell: Cell, req: Request, peerId: nat)
  {
    CheckEpoch(cell, req) && req.body.ChangePeer? && !req.body.add && req.body.peer.id == peerId
    && OnStore(cell.peers, req.body.peer.storeId)
  }

  function Replay(core: Core, entries: seq<Entry>): Core
  {
    if |entries| == 0 then core
    else
      var n := |entries| - 1;
      ApplyEntry(Replay(core, entries[..n]), entries[n]).core
  }

  // ---- what every replay keeps ----

  lemma EntryKeeps(core: Core, e: Entry)
    ensures var c := ApplyEntry(core, e).core;
            && EpochLe(core.cell.epoch, c.cell.epoch)
            && c.apply.applied == e.index
            && core.apply.trunc <= c.apply.trunc
            && core.writes <= c.writes && core.born <= c.born
            && c.cell.id == core.cell.id && c.cell.start == core.cell.start
    ensures core.apply.trunc <= core.apply.applied <= e.index ==> ApplyEntry(core, e).core.apply.trunc <= core.apply.applied
  {
  }

  /** Entries carry consecutive indices from the applied one on. */
  predicate Consecutive(applied: nat, entries: seq<Entry>)
  {
    forall i :: 0 <= i < |entries| ==> entries[i].index == applied + 1 + i
  }

  /** Over every replay epochs never decrease, the log is truncated only below the applied index and
      never less than before, and what was written or split off stays. */
  lemma {:induction false} ReplayKeeps(core: Core, entries: seq<Entry>)
    requires Consecutive(core.apply.applied, entries) && core.apply.trunc <= core.apply.applied
    ensures var c := Replay(core, entries);
            && EpochLe(core.cell.epoch, c.cell.epoch)
            && c.apply.applied == core.apply.applied + |entries|
            && core.apply.trunc <= c.apply.trunc <= c.apply.applied
            && core.writes <= c.writes && core.born <= c.born
  {
    if |entries| > 0 {
      var n := |entries| - 1;
      ReplayKeeps(core, entries[..n]);
      EntryKeeps(Replay(core, entries[..n]), entries[n]);
    }
  }

  /** The entry's split went through. */
  predicate SplitsAt(core: Core, e: Entry)
  {
    var r := ApplyEntry(core, e).result;
    r.Some? && r.value.SplitResult?
  }

  /** Some split goes through among the entries. */
  predicate SplitAmong(core: Core, entries: seq<Entry>)
  {
    |entries| > 0 && (var n := |entries| - 1; SplitAmong(core, entries[..n]) || SplitsAt(Replay(core, entries[..n]), entries[n]))
  }

  /** The range version counts splits: it stays the same exactly as long as none goes through. */
  lemma {:induction false} VersionMovesWithSplits(core: Core, entries: seq<Entry>)
    ensures core.cell.epoch.cellVer <= Replay(core, entries).cell.epoch.cellVer
    ensures core.cell.epoch.cellVer < Replay(core, entries).cell.epoch.cellVer <==> SplitAmong(core, entries)
  {
    if |entries| > 0 {
      var n := |entries| - 1;
      VersionMovesWithSplits(core, entries[..n]);
      SplitBumps(Replay(core, entries[..n]), entries[n]);
    }
  }

  lemma SplitBumps(core: Core, e: Entry)
    ensures ApplyEntry(core, e).core.cell.epoch.cellVer == core.cell.epoch.cellVer + if SplitsAt(core, e) then 1 else 0
  {
  }

  /** A write stamped with the range version of its time is executed if and only if no split goes through
      between then and its own entry; otherwise it is answered with the cell as it is now. */
  lemma WriteRunsIffNoSplit(core: Core, between: seq<Entry>, e: Entry)
    requires e.payload.Normal? && e.payload.req.body.Write? && e.payload.req.epoch.cellVer == core.cell.epoch.cellVer
    ensures var now := Replay(core, between); var o := ApplyEntry(now, e);
            if SplitAmong(core, between) then o.core.writes == now.writes && o.resp == Some(StaleEpoch(now.cell))
            else o.core.writes == now.writes + [e.payload.req] && o.resp == Some(Written(e.payload.req.body.ops))
  {
    VersionMovesWithSplits(core, between);
  }

  /** A split stamped with the range version of its time goes through if and only if no other split did
      before it and its key still fits the cell. */
  lemma SplitRunsIffFirst(core: Core, between: seq<Entry>, e: Entry)
    requires e.payload.Normal? && e.payload.req.body.Split? && e.payload.req.epoch.cellVer == core.cell.epoch.cellVer
    ensures var now := Replay(core, between); var b := e.payload.req.body;
            SplitsAt(now, e) <==>
            !SplitAmong(core, between) && |b.rawKey| > 0 && SplitAccepted(now.cell, b.rawKey[1..], b.newPeers)
  {
    VersionMovesWithSplits(core, between);
  }

  /** A split key fits if it is not below the start, is below the end unless that is infinite, and there is one
      new peer id per peer. */
  lemma SplitAcceptedIff(cell: Cell, key: Key, newPeers: seq<nat>)
    ensures SplitAccepted(cell, key, newPeers) <==>
            !Lt(key, cell.start) && (cell.end == [] || Lt(key, cell.end)) && |newPeers| == |cell.peers|
  {
  }

  /** Log compaction is not held back by any epoch; it is answered and changes nothing but the truncated state. */
  lemma CompactionIgnoresEpoch(core: Core, e: Entry, index: nat, term: nat)
    requires e.payload.Normal? && e.payload.req.body == RaftLogGC(index, term)
    ensures var o := ApplyEntry(core, e); var r := Compact(core.apply, index, term);
            && o.core == core.(apply := (if r.Truncated? then r.apply else core.apply).(applied := e.index))
            && (r.Truncated? <==> o.resp == Some(GCDone) && o.result == Some(GCResult(index, term, core.apply.trunc + 1)))
            && (r.NoNeed? <==> o.resp == None)
            && (r.Refused? <==> o.resp == Some(StaleEpoch(core.cell)))
            && (!r.Truncated? ==> o.result == None)
  {
  }

  /** A split without a key is refused like a stale one, a rejected one is dropped without an answer. */
  lemma RejectedSplits(core: Core, e: Entry)
    requires e.payload.Normal? && e.payload.req.body.Split? && CheckEpoch(core.cell, e.payload.req) && !SplitsAt(core, e)
    ensures var o := ApplyEntry(core, e);
            && o.core == core.(apply := core.apply.(applied := e.index)) && o.result == None
            && o.resp == if e.payload.req.body.rawKey == [] then Some(StaleEpoch(core.cell)) else None
  {
  }

  // ---- membership ----

  /** The entry's membership change passes the epoch check. */
  predicate ChangesAt(core: Core, e: Entry)
  {
    !e.payload.Empty? && e.payload.req.body.ChangePeer? && CheckEpoch(core.cell, e.payload.req)
  }

  predicate ChangeAmong(core: Core, entries: seq<Entry>)
  {
    |entries| > 0 && (var n := |entries| - 1; ChangeAmong(core, entries[..n]) || ChangesAt(Replay(core, entries[..n]), entries[n]))
  }

  lemma ChangeBumps(core: Core, e: Entry)
    ensures ApplyEntry(core, e).core.cell.epoch.confVer == core.cell.epoch.confVer + if ChangesAt(core, e) then 1 else 0
  {
  }

  /** The membership version counts executed changes. */
  lemma {:induction false} VersionMovesWithChanges(core: Core, entries: seq<Entry>)
    ensures core.cell.epoch.confVer <= Replay(core, entries).cell.epoch.confVer
    ensures core.cell.epoch.confVer < Replay(core, entries).cell.epoch.confVer <==> ChangeAmong(core, entries)
  {
    if |entries| > 0 {
      var n := |entries| - 1;
      VersionMovesWithChanges(core, entries[..n]);
      ChangeBumps(Replay(core, entries[..n]), entries[n]);
    }
  }

  /** Of all membership changes stamped with the same version only the first in the log is executed: one
      stamped with the version of its time runs if and only if no other one did before it. */
  lemma ChangeRunsIffFirst(core: Core, between: seq<Entry>, e: Entry)
    requires !e.payload.Empty? && e.payload.req.body.ChangePeer?
    requires e.payload.req.epoch.confVer == core.cell.epoch.confVer
    ensures var now := Replay(core, between);
            && (ChangesAt(now, e) <==> !ChangeAmong(core, between))
            && (ChangeAmong(core, between) ==> ApplyEntry(now, e).core == now.(apply := now.apply.(applied := e.index)))
  {
    VersionMovesWithChanges(core, between);
  }

  predicate OnePerStore(peers: seq<Peer>)
  {
    forall i, j :: 0 <= i < j < |peers| ==> peers[i].storeId != peers[j].storeId
  }

  lemma {:induction false} WithoutStoreOne(peers: seq<Peer>, store: nat)
    requires OnePerStore(peers)
    ensures OnePerStore(WithoutStore(peers, store))
  {
    if |peers| > 0 {
      var n := |peers| - 1;
      var rest := WithoutStore(peers[..n], store);
      WithoutStoreOne(peers[..n], store);
      WithoutStoreIs(peers[..n], store);
      forall i | 0 <= i < |rest|
        ensures rest[i].storeId != peers[n].storeId
      {
        assert rest[i] in rest && rest[i] in peers[..n];
      }
    }
  }

  /** After an executed change the store holds a peer exactly if one was to be added, the peers of other
      stores are untouched, and the membership version is one higher whether or not anything changed. */
  lemma ChangePeerMeans(core: Core, add: bool, peer: Peer)
    ensures var c := ExecChangePeer(core, add, peer).core.cell;
            && OnStore(c.peers, peer.storeId) == add
            && (forall p: Peer :: p.storeId != peer.storeId ==> (p in c.peers <==> p in core.cell.peers))
            && c.epoch == Epoch(core.cell.epoch.confVer + 1, core.cell.epoch.cellVer)
            && (c.id, c.start, c.end) == (core.cell.id, core.cell.start, core.cell.end)
    ensures var o := ExecChangePeer(core, add, peer);
            if OnStore(core.cell.peers, peer.storeId) == add then
              o.core.cell.peers == core.cell.peers && o.resp == None && o.result == None
            else
              && o.resp == Some(PeerChanged(o.core.cell)) && o.result == Some(PeerResult(peer, o.core.cell))
              && (add ==> o.core.cell.peers == core.cell.peers + [peer])
    ensures var o := ExecChangePeer(core, add, peer);
            && o.core.apply == core.apply && o.core.appliedTerm == core.appliedTerm
            && o.core.writes == core.writes && o.core.born == core.born
  {
    WithoutStoreIs(core.cell.peers, peer.storeId);
    var c := ExecChangePeer(core, add, peer).core.cell;
    if add && !OnStore(core.cell.peers, peer.storeId) {
      assert c.peers[|core.cell.peers|] == peer;
    } else if !add && OnStore(core.cell.peers, peer.storeId) {
      assert forall i :: 0 <= i < |c.peers| ==> c.peers[i] in c.peers;
    }
  }

  // ---- restarts ----

  /** An executed change that adds a peer where one is or removes one where none is. */
  predicate NoopAt(core: Core, e: Entry)
  {
    ChangesAt(core, e) && e.payload.req.body.add == OnStore(core.cell.peers, e.payload.req.body.peer.storeId)
  }

  /** The entry writes the cell to the engine. */
  predicate SavesAt(core: Core, e: Entry)
  {
    SplitsAt(core, e) || (ChangesAt(core, e) && !NoopAt(core, e))
  }

  /** A no-op change was executed after the cell was last saved. */
  predicate NoopSinceSave(core: Core, entries: seq<Entry>)
  {
    |entries| > 0 && (var n := |entries| - 1;
                      var c := Replay(core, entries[..n]);
                      NoopAt(c, entries[n]) || (NoopSinceSave(core, entries[..n]) && !SavesAt(c, entries[n])))
  }

  /** The saved cell differs from the one in memory at most by a lower membership version. */
  predicate SavedBehind(core: Core)
  {
    && core.saved.epoch.confVer <= core.cell.epoch.confVer
    && core.saved == core.cell.(epoch := core.cell.epoch.(confVer := core.saved.epoch.confVer))
  }

  lemma SavedStep(core: Core, e: Entry)
    requires SavedBehind(core)
    ensures var c := ApplyEntry(core, e).core;
            && SavedBehind(c)
            && (SavesAt(core, e) ==> c.saved == c.cell)
            && (NoopAt(core, e) ==> c.saved != c.cell)
            && (!SavesAt(core, e) && !NoopAt(core, e) ==> c.saved == core.saved && c.cell == core.cell)
  {
  }

  /** Over every replay the saved cell is the one in memory if and only if no no-op change was executed
      since the last save. */
  lemma {:induction false} SavedLagsIff(core: Core, entries: seq<Entry>)
    requires core.saved == core.cell
    ensures var c := Replay(core, entries); SavedBehind(c) && (c.saved != c.cell <==> NoopSinceSave(core, entries))
  {
    if |entries| > 0 {
      var n := |entries| - 1;
      SavedLagsIff(core, entries[..n]);
      SavedStep(Replay(core, entries[..n]), entries[n]);
    }
  }

  /** The delegate of a restarted replica starts from the saved cell and the initial applied-index term. */
  function Restarted(core: Core): Core
  {
    core.(cell := core.saved, appliedTerm := INIT_TERM)
  }

  /** A restarted replica executes a membership change that the others refuse if and only if its stamp lies
      between the saved version and the one in memory. */
  lemma RestartedRunsRefused(core: Core, e: Entry)
    requires !e.payload.Empty? && e.payload.req.body.ChangePeer?
    ensures ChangesAt(Restarted(core), e) && !ChangesAt(core, e) <==>
            core.saved.epoch.confVer <= e.payload.req.epoch.confVer < core.cell.epoch.confVer
  {
  }

  lemma EntryIgnoresTerm(a: Core, b: Core, e: Entry)
    requires a.(appliedTerm := b.appliedTerm) == b
    ensures var c, d := ApplyEntry(a, e).core, ApplyEntry(b, e).core; c.(appliedTerm := d.appliedTerm) == d
  {
  }

  lemma {:induction false} ReplayIgnoresTerm(a: Core, b: Core, entries: seq<Entry>)
    requires a.(appliedTerm := b.appliedTerm) == b
    ensures var c, d := Replay(a, entries), Replay(b, entries); c.(appliedTerm := d.appliedTerm) == d
  {
    if |entries| > 0 {
      var n := |entries| - 1;
      ReplayIgnoresTerm(a, b, entries[..n]);
      EntryIgnoresTerm(Replay(a, entries[..n]), Replay(b, entries[..n]), entries[n]);
    }
  }

  function StoreAbove(peers: seq<Peer>): (s: nat)
    ensures forall i :: 0 <= i < |peers| ==> peers[i].storeId < s
  {
    if |peers| == 0 then 0
    else
      var n := |peers| - 1;
      var s := StoreAbove(peers[..n]);
      if peers[n].storeId < s then s else peers[n].storeId + 1
  }

  /** The change that tells a restarted replica from the others. */
  function Telltale(core: Core): Entry
  {
    var peer := Peer(0, StoreAbove(core.cell.peers));
    Entry(core.apply.applied + 1, core.appliedTerm, ConfChange(Request(0, core.saved.epoch, ChangePeer(true, peer))))
  }

  lemma ReplayOne(core: Core, e: Entry)
    ensures Replay(core, [e]) == ApplyEntry(core, e).core
  {
    assert [e][..0] == [] && Replay(core, []) == core;
  }

  lemma TelltaleTells(core: Core)
    requires SavedBehind(core) && core.saved != core.cell
    ensures Replay(Restarted(core), [Telltale(core)]).cell.peers != Replay(core, [Telltale(core)]).cell.peers
  {
    var e := Telltale(core);
    ReplayOne(core, e);
    ReplayOne(Restarted(core), e);
    assert |ApplyEntry(Restarted(core), e).core.cell.peers| == |core.cell.peers| + 1;
  }

  /** A replica that restarts ends with the same members as the others on every continuation of the log if
      and only if no no-op change was executed since its cell was last saved. */
  lemma RestartAgreesIff(start: Core, entries: seq<Entry>)
    requires start.saved == start.cell
    ensures var c := Replay(start, entries);
            (forall more: seq<Entry> :: Replay(Restarted(c), more).cell.peers == Replay(c, more).cell.peers)
            <==> !NoopSinceSave(start, entries)
  {
    var c := Replay(start, entries);
    SavedLagsIff(start, entries);
    if c.saved == c.cell {
      forall more: seq<Entry>
        ensures Replay(Restarted(c), more).cell.peers == Replay(c, more).cell.peers
      {
        ReplayIgnoresTerm(Restarted(c), c, more);
      }
    } else {
      TelltaleTells(c);
    }
  }

  /** The cell and every cell split off it have at most one peer per store. */
  predicate Placed(core: Core)
  {
    OnePerStore(core.cell.peers) && forall i :: 0 <= i < |core.born| ==> OnePerStore(core.born[i].peers)
  }

  lemma EntryKeepsPlaced(core: Core, e: Entry)
    requires Placed(core)
    ensures Placed(ApplyEntry(core, e).core)
  {
    if !e.payload.Empty? && e.payload.req.body.ChangePeer? {
      WithoutStoreOne(core.cell.peers, e.payload.req.body.peer.storeId);
    }
  }

  /** Over every replay a cell has at most one peer per store. */
  lemma {:induction false} OnePeerPerStore(core: Core, entries: seq<Entry>)
    requires Placed(core)
    ensures Placed(Replay(core, entries))
  {
    if |entries| > 0 {
      var n := |entries| - 1;
      OnePeerPerStore(core, entries[..n]);
      EntryKeepsPlaced(Replay(core, entries[..n]), entries[n]);
    }
  }

  // ---- the applied-index term ----

  /** The term of the last empty entry, or the given term if there is none. */
  function LastEmptyTerm(term: nat, entries: seq<Entry>): nat
  {
    if |entries| == 0 then term
    else
      var n := |entries| - 1;
      if entries[n].payload.Empty? then entries[n].term else LastEmptyTerm(term, entries[..n])
  }

  lemma {:induction false} AppliedTermIsLastEmpty(core: Core, entries: seq<Entry>)
    ensures Replay(core, entries).appliedTerm == LastEmptyTerm(core.appliedTerm, entries)
  {
    if |entries| > 0 {
      AppliedTermIsLastEmpty(core, entries[..|entries| - 1]);
    }
  }

  /** The term right before entry i. */
  function TermBefore(term: nat, entries: seq<Entry>, i: nat): nat
    requires i < |entries|
  {
    if i == 0 then term else entries[i - 1].term
  }

  predicate TermsRise(term: nat, entries: seq<Entry>)
  {
    forall i :: 0 <= i < |entries| ==> TermBefore(term, entries, i) <= entries[i].term
  }

  /** Every term in the log begins with its empty entry. */
  predicate TermsBeginEmpty(term: nat, entries: seq<Entry>)
  {
    forall i :: 0 <= i < |entries| && TermBefore(term, entries, i) < entries[i].term ==> entries[i].payload.Empty?
  }

  lemma SamePrefix(term: nat, entries: seq<Entry>, n: nat)
    requires n <= |entries|
    ensures forall i :: 0 <= i < n ==> TermBefore(term, entries[..n], i) == TermBefore(term, entries, i)
  {
  }

  function LastTerm(term: nat, entries: seq<Entry>): nat
  {
    if |entries| == 0 then term else entries[|entries| - 1].term
  }

  /** If the log's terms begin with empty entries, a replica that knows the term of its last applied
      entry keeps knowing it. */
  lemma {:induction false} AppliedTermTracksLog(core: Core, entries: seq<Entry>)
    requires TermsRise(core.appliedTerm, entries) && TermsBeginEmpty(core.appliedTerm, entries)
    ensures Replay(core, entries).appliedTerm == LastTerm(core.appliedTerm, entries)
  {
    if |entries| > 0 {
      var n := |entries| - 1;
      SamePrefix(core.appliedTerm, entries, n);
      assert TermsRise(core.appliedTerm, entries[..n]) && TermsBeginEmpty(core.appliedTerm, entries[..n]);
      AppliedTermTracksLog(core, entries[..n]);
      assert TermBefore(core.appliedTerm, entries, n) == LastTerm(core.appliedTerm, entries[..n]);
    }
  }

  /** After a restart or a snapshot the applied-index term may lag; it is the term of the last applied
      entry if and only if an empty entry of that term has been applied since, or it did not lag. */
  lemma {:induction false} AppliedTermCurrentIff(core: Core, entries: seq<Entry>)
    requires |entries| > 0 && TermsRise(core.appliedTerm, entries)
    ensures var last := entries[|entries| - 1].term;
            Replay(core, entries).appliedTerm == last <==>
            core.appliedTerm == last || exists i :: 0 <= i < |entries| && entries[i].payload.Empty? && entries[i].term == last
  {
    AppliedTermIsLastEmpty(core, entries);
    LastEmptyIff(core.appliedTerm, entries, entries[|entries| - 1].term);
  }

  lemma {:induction false} LastEmptyIff(term: nat, entries: seq<Entry>, last: nat)
    requires TermsRise(term, entries) && LastTerm(term, entries) <= last
    ensures LastEmptyTerm(term, entries) <= LastTerm(term, entries)
    ensures LastEmptyTerm(term, entries) == last <==>
            term == last || exists i :: 0 <= i < |entries| && entries[i].payload.Empty? && entries[i].term == last
  {
    if |entries| > 0 {
      var n := |entries| - 1;
      SamePrefix(term, entries, n);
      assert TermBefore(term, entries, n) == LastTerm(term, entries[..n]);
      LastEmptyIff(term, entries[..n], last);
      assert forall i :: 0 <= i < n ==> entries[..n][i] == entries[i];
      TermsAtLeast(term, entries);
    }
  }

  lemma TermsAtLeast(term: nat, entries: seq<Entry>)
    requires TermsRise(term, entries)
    ensures forall i :: 0 <= i < |entries| ==> term <= entries[i].term <= LastTerm(term, entries)
  {
    forall i | 0 <= i < |entries|
      ensures term <= entries[i].term <= LastTerm(term, entries)
    {
      TermsUpTo(term, entries, 0, i);
      assert TermBefore(term, entries, 0) <= entries[0].term;
      TermsUpTo(term, entries, i, |entries| - 1);
    }
  }

  lemma {:induction false} TermsUpTo(term: nat, entries: seq<Entry>, i: nat, j: nat)
    requires TermsRise(term, entries) && i <= j < |entries|
    ensures entries[i].term <= entries[j].term
  {
    if i < j {
      TermsUpTo(term, entries, i, j - 1);
      assert TermBefore(term, entries, j) <= entries[j].term;
    }
  }
}
