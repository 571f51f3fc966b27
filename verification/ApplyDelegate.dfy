/** The apply delegate of a cell as the object whose fields each committed entry updates. */
module ApplyDelegates {
  import opened Keys
  import opened Cells
  import opened ApplyCore
  import opened ApplyRuns

  /** The first peer on the store. */
  method FindPeer(peers: seq<Peer>, store: nat) returns (found: Option<Peer>)
    ensures found.Some? <==> OnStore(peers, store)
    ensures found.Some? ==> found.value in peers && found.value.storeId == store
  {
    for i := 0 to |peers|
      invariant !OnStore(peers[..i], store)
    {
      if peers[i].storeId == store {
        return Some(peers[i]);
      }
      assert peers[..i + 1] == peers[..i] + [peers[i]];
    }
    assert peers[..|peers|] == peers;
    found := None;
  }

  method RemovePeer(peers: seq<Peer>, store: nat) returns (left: seq<Peer>)
    ensures left == WithoutStore(peers, store)
  {
    left := [];
    for i := 0 to |peers|
      invariant left == WithoutStore(peers[..i], store)
    {
      assert peers[..i + 1][..i] == peers[..i];
      if peers[i].storeId != store {
        left := left + [peers[i]];
      }
    }
    assert peers[..|peers|] == peers;
  }

  method SplitPeers(ids: seq<nat>, peers: seq<Peer>) returns (r: seq<Peer>)
    requires |ids| == |peers|
    ensures r == NewPeers(ids, peers)
  {
    r := [];
    for i := 0 to |ids|
      invariant |r| == i
      invariant forall k :: 0 <= k < i ==> r[k] == Peer(ids[k], peers[k].storeId)
    {
      r := r + [Peer(ids[i], peers[i].storeId)];
    }
  }

  /** The fields every command entry sets alike. */
  predicate Advanced(s: State, t: State, e: Entry, o: Outcome)
    requires !e.payload.Empty?
  {
    && t.live == s.live && t.peerId == s.peerId && t.fatal == s.fatal && t.proposed == s.proposed && t.changes == s.changes
    && t.floor == s.floor && t.mark == s.mark && t.core == o.core && t.term == e.term
    && t.removed == RemovesSelf(s.core.cell, e.payload.req, s.peerId)
    && t.applied == s.applied + [Record(e, |s.proposed|, o.resp)]
  }

  lemma NormalIs(s: State, t: State, e: Entry, o: Outcome)
    requires !e.payload.Empty? && !e.payload.req.body.ChangePeer? && Advanced(s, t, e, o)
    requires t.pending == NormalAnswer(s, e).pending && t.handled == NormalAnswer(s, e).handled
    requires t.change == s.change && t.changeReplies == s.changeReplies
    ensures t == Recorded(s, e, o)
  {
  }

  lemma ChangeIs(s: State, t: State, e: Entry, o: Outcome)
    requires !e.payload.Empty? && e.payload.req.body.ChangePeer? && Advanced(s, t, e, o)
    requires var u := ChangeAnswer(s, e, o.resp.Some?); t.change == u.change && t.changeReplies == u.changeReplies
    requires t.pending == s.pending && t.handled == s.handled
    ensures t == Recorded(s, e, o)
  {
  }

  lemma EmptyIs(s: State, t: State, e: Entry)
    requires e.payload.Empty?
    requires t == s.(core := s.core.(apply := s.core.apply.(applied := e.index), appliedTerm := e.term),
             pending := t.pending, handled := t.handled, applied := t.applied)
    requires var k := Sweep(s.pending, e.term);
             t.pending == s.pending[k..] && t.handled == s.handled + ToldStale(s.pending[..k], s.term, |s.applied|)
    requires t.applied == s.applied + [Record(e, |s.proposed|, None)]
    ensures t == EmptyStep(s, e)
  {
  }

  lemma RegisterIs(s: State, t: State, start: Core, term: nat, peer: nat)
    requires !(s.live && (s.peerId != peer || s.change.Answered?))
    requires t == State(true, peer, false, start, term, [], NoChange, s.fatal, s.proposed, t.handled, s.changes, t.changeReplies,
                        s.applied, |s.proposed|, |s.changes|)
    requires t.handled == s.handled + ToldCleared(s.pending, term)
    requires t.changeReplies == s.changeReplies + ToldCleared(InSlot(s.change), term)
    ensures t == RegisterStep(s, start, term, peer)
  {
  }

  class ApplyDelegate {
    var live: bool
    var peerId: nat
    var pendingRemove: bool
    var core: Core    // the cell, the apply state, the applied-index term and what reached the engine
    var term: nat
    var pendingCMDs: seq<Cmd>
    var pendingChangePeerCMD: Slot
    var fatal: bool
    // the history of proposals, answers and applied entries
    ghost var proposed: seq<Cmd>
    ghost var handled: seq<Handled>
    ghost var changes: seq<Cmd>
    ghost var changeReplies: seq<Handled>
    ghost var records: seq<Record>
    ghost var floor: nat
    ghost var mark: nat

    constructor (start: Core)
      ensures View() == Initial(start)
    {
      live, peerId, pendingRemove, core, term := false, 0, false, start, 0;
      pendingCMDs, pendingChangePeerCMD, fatal := [], NoChange, false;
      proposed, handled, changes, changeReplies, records, floor, mark := [], [], [], [], [], 0, 0;
    }

    ghost function View(): State
      reads this
    {
      State(live, peerId, pendingRemove, core, term, pendingCMDs, pendingChangePeerCMD, fatal,
            proposed, handled, changes, changeReplies, records, floor, mark)
    }

    // ---- the queue of waiting commands ----

    method PopPendingCMD(entryTerm: int) returns (c: Option<Cmd>)
      modifies `pendingCMDs
      ensures old(pendingCMDs) == [] || old(pendingCMDs)[0].term > entryTerm ==>
                c == None && pendingCMDs == old(pendingCMDs)
      ensures old(pendingCMDs) != [] && old(pendingCMDs)[0].term <= entryTerm ==>
                c == Some(old(pendingCMDs)[0]) && pendingCMDs == old(pendingCMDs)[1..]
    {
      if |pendingCMDs| == 0 || pendingCMDs[0].term > entryTerm {
        return None;
      }
      c := Some(pendingCMDs[0]);
      pendingCMDs := pendingCMDs[1..];
    }

    /** Finds the command waiting for a normal entry; the commands popped before it are told stale. */
    method FindWaiting(entryTerm: nat, uuid: nat) returns (c: Option<Cmd>)
      modifies `pendingCMDs, `handled
      ensures var (k, hit) := FindCB(old(pendingCMDs), entryTerm, uuid);
              && c == (if hit then Some(old(pendingCMDs)[k - 1]) else None)
              && pendingCMDs == old(pendingCMDs)[k..]
              && handled == old(handled) + ToldStale(old(pendingCMDs)[..if hit then k - 1 else k], term, |records|)
    {
      ghost var was := pendingCMDs;
      ghost var n := 0;
      var done := false;
      c := None;
      while !done
        invariant n <= |was| && pendingCMDs == was[n..]
        invariant !done ==> c == None && handled == old(handled) + ToldStale(was[..n], term, |records|)
        invariant !done ==> var (k, hit) := FindCB(was[n..], entryTerm, uuid); FindCB(was, entryTerm, uuid) == (n + k, hit)
        invariant done ==> var (k, hit) := FindCB(was, entryTerm, uuid);
                    n == k && c == (if hit then Some(was[k - 1]) else None)
                    && handled == old(handled) + ToldStale(was[..if hit then k - 1 else k], term, |records|)
        decreases !done, |pendingCMDs|
      {
        var head := PopPendingCMD(entryTerm);
        if head == None {
          done := true;
        } else {
          n := n + 1;
          assert was[n - 1..][1..] == was[n..];
          if head.value.uuid == uuid {
            c, done := head, true;
          } else {
            handled := handled + [Handled(head.value.uuid, term, Stale(|records|))];
            ToldStaleNext(was, n - 1, term, |records|, old(handled));
          }
        }
      }
    }

    /** Tells every command of a term before the entry's that it is stale. */
    method SweepStale(entryTerm: nat)
      requires entryTerm > 0
      modifies `pendingCMDs, `handled
      ensures var k := Sweep(old(pendingCMDs), entryTerm);
              && pendingCMDs == old(pendingCMDs)[k..]
              && handled == old(handled) + ToldStale(old(pendingCMDs)[..k], term, |records|)
    {
      ghost var was := pendingCMDs;
      ghost var n := 0;
      var done := false;
      while !done
        invariant n <= |was| && pendingCMDs == was[n..]
        invariant handled == old(handled) + ToldStale(was[..n], term, |records|)
        invariant Sweep(was, entryTerm) == n + Sweep(was[n..], entryTerm)
        invariant done ==> Sweep(was[n..], entryTerm) == 0
        decreases !done, |pendingCMDs|
      {
        var head := PopPendingCMD(entryTerm - 1);
        if head == None {
          done := true;
        } else {
          n := n + 1;
          assert was[n - 1..][1..] == was[n..];
          handled := handled + [Handled(head.value.uuid, term, Stale(|records|))];
          ToldStaleNext(was, n - 1, term, |records|, old(handled));
        }
      }
    }

    // ---- executing requests ----

    method ExecChangePeer(add: bool, peer: Peer) returns (resp: Option<Resp>, result: Option<Result>)
      modifies `core, `pendingRemove
      ensures Outcome(core, resp, result) == ApplyCore.ExecChangePeer(old(core), add, peer)
      ensures pendingRemove == (old(pendingRemove) || (!add && peer.id == peerId && OnStore(old(core).cell.peers, peer.storeId)))
    {
      var cell := core.cell;
      var found := FindPeer(cell.peers, peer.storeId);
      cell := cell.(epoch := cell.epoch.(confVer := cell.epoch.confVer + 1));
      core := core.(cell := cell);
      if add {
        if found.Some? {
          return None, None;
        }
        cell := cell.(peers := cell.peers + [peer]);
      } else {
        if found.None? {
          return None, None;
        }
        if peerId == peer.id {
          pendingRemove := true;
        }
        var left := RemovePeer(cell.peers, peer.storeId);
        cell := cell.(peers := left);
      }
      core := core.(cell := cell, saved := cell);
      resp, result := Some(PeerChanged(cell)), Some(PeerResult(peer, cell));
    }

    /** An error is answered like a stale epoch. */
    method ExecSplit(rawKey: Key, newCell: nat, newPeers: seq<nat>)
      returns (resp: Option<Resp>, result: Option<Result>)
      modifies `core
      ensures Outcome(core, resp, result) == ApplyCore.ExecSplit(old(core), rawKey, newCell, newPeers)
    {
      var cell := core.cell;
      if |rawKey| == 0 {
        return Some(StaleEpoch(cell)), None;
      }
      var key := rawKey[1..];
      OrderLaws();
      if Lt(key, cell.start) {
        return None, None;
      }
      if !Contains(cell, key) {
        return None, None;
      }
      if |newPeers| != |cell.peers| {
        return None, None;
      }
      var right := Cell(newCell, key, cell.end, cell.epoch, []);
      cell := cell.(end := key);
      var peers := SplitPeers(newPeers, cell.peers);
      cell := cell.(epoch := cell.epoch.(cellVer := cell.epoch.cellVer + 1));
      right := right.(peers := peers, epoch := right.epoch.(cellVer := cell.epoch.cellVer));
      core := core.(cell := cell, saved := cell, born := core.born + [right]);
      resp, result := Some(SplitDone(cell, right)), Some(SplitResult(cell, right));
    }

    method ExecRaftGC(compactIndex: nat, compactTerm: nat) returns (resp: Option<Resp>, result: Option<Result>)
      modifies `core
      ensures Outcome(core, resp, result) == ApplyCore.ExecRaftGC(old(core), compactIndex, compactTerm)
    {
      var firstIndex := core.apply.trunc + 1;
      if compactIndex <= firstIndex {
        return None, None;
      }
      if compactTerm == 0 {
        return Some(StaleEpoch(core.cell)), None;
      }
      if compactIndex <= core.apply.trunc || compactIndex > core.apply.applied {
        return Some(StaleEpoch(core.cell)), None;
      }
      core := core.(apply := core.apply.(trunc := compactIndex, truncTerm := compactTerm));
      resp, result := Some(GCDone), Some(GCResult(compactIndex, compactTerm, firstIndex));
    }

    method ExecRequest(req: Request) returns (resp: Option<Resp>, result: Option<Result>)
      modifies `core, `pendingRemove
      ensures Outcome(core, resp, result) == if CheckEpoch(old(core).cell, req) then Exec(old(core), req) else Refuse(old(core))
      ensures pendingRemove == (old(pendingRemove) || RemovesSelf(old(core).cell, req, peerId))
    {
      resp, result := None, None;
      if !CheckEpoch(core.cell, req) {
        return Some(StaleEpoch(core.cell)), None;
      }
      match req.body {
        case Write(ops) =>
          core := core.(writes := core.writes + [req]);
          resp := Some(Written(ops));
        case ChangePeer(add, peer) => resp, result := ExecChangePeer(add, peer);
        case Split(rawKey, newCell, newPeers) => resp, result := ExecSplit(rawKey, newCell, newPeers);
        case RaftLogGC(index, gcTerm) => resp, result := ExecRaftGC(index, gcTerm);
        case TransferLeader =>
        case OtherAdmin =>
      }
    }

    // ---- applying committed entries ----

    /** findCB for a change-peer entry: the slot's command if it is the entry's own. */
    method FindChange(uuid: nat) returns (c: Option<Cmd>)
      modifies `pendingChangePeerCMD, `changeReplies
      ensures var was := old(pendingChangePeerCMD);
              if !was.Waiting? then c == None && pendingChangePeerCMD == was && changeReplies == old(changeReplies)
              else if was.cmd.uuid == uuid then c == Some(was.cmd) && pendingChangePeerCMD == was && changeReplies == old(changeReplies)
              else c == None && pendingChangePeerCMD == Answered
                   && changeReplies == old(changeReplies) + ToldStale([was.cmd], term, |records|)
    {
      c := None;
      if pendingChangePeerCMD.Waiting? {
        if pendingChangePeerCMD.cmd.uuid == uuid {
          return Some(pendingChangePeerCMD.cmd);
        }
        changeReplies := changeReplies + [Handled(pendingChangePeerCMD.cmd.uuid, term, Stale(|records|))];
        pendingChangePeerCMD := Answered;
      }
    }

    method ApplyEmptyEntry(e: Entry)
      requires e.payload.Empty?
      modifies this
      ensures e.term > 0 ==> View() == EmptyStep(old(View()), e)
      ensures e.term == 0 ==> fatal
    {
      ghost var s := View();
      core := core.(apply := core.apply.(applied := e.index), appliedTerm := e.term);
      if e.term == 0 {
        fatal := true;
        return;
      }
      SweepStale(e.term);
      records := records + [Record(e, |proposed|, None)];
      EmptyIs(s, View(), e);
    }

    /** The answer to the command that was waiting for the entry. */
    method AnswerNormal(e: Entry, c: Option<Cmd>, resp: Option<Resp>)
      requires !e.payload.Empty?
      modifies `handled, `records
      ensures handled == old(handled) + if c.Some? then [Handled(e.payload.req.uuid, e.term, Done(|old(records)|))] else []
      ensures records == old(records) + [Record(e, |proposed|, resp)]
    {
      if c.Some? {
        handled := handled + [Handled(e.payload.req.uuid, e.term, Done(|records|))];
      }
      records := records + [Record(e, |proposed|, resp)];
    }

    method AnswerChange(e: Entry, c: Option<Cmd>, resp: Option<Resp>)
      requires !e.payload.Empty?
      modifies `pendingChangePeerCMD, `changeReplies, `records
      ensures if c.Some? && resp.Some? then
                pendingChangePeerCMD == Answered
                && changeReplies == old(changeReplies) + [Handled(e.payload.req.uuid, e.term, Done(|old(records)|))]
              else pendingChangePeerCMD == old(pendingChangePeerCMD) && changeReplies == old(changeReplies)
      ensures records == old(records) + [Record(e, |proposed|, resp)]
    {
      if c.Some? && resp.Some? {
        pendingChangePeerCMD := Answered;
        changeReplies := changeReplies + [Handled(e.payload.req.uuid, e.term, Done(|records|))];
      }
      records := records + [Record(e, |proposed|, resp)];
    }

    method ExecuteAt(e: Entry) returns (resp: Option<Resp>, result: Option<Result>)
      requires !e.payload.Empty? && !pendingRemove
      modifies `core, `pendingRemove, `term
      ensures Outcome(core, resp, result) == ApplyEntry(old(core), e)
      ensures term == e.term && pendingRemove == RemovesSelf(old(core).cell, e.payload.req, peerId)
    {
      resp, result := ExecRequest(e.payload.req);
      core, term := core.(apply := core.apply.(applied := e.index)), e.term;
    }

    method ApplyChange(e: Entry) returns (resp: Option<Resp>, result: Option<Result>)
      requires !e.payload.Empty? && !pendingRemove && e.payload.req.body.ChangePeer?
      modifies this
      ensures View() == Recorded(old(View()), e, Outcome(core, resp, result))
      ensures Outcome(core, resp, result) == ApplyEntry(old(core), e)
    {
      ghost var s := View();
      var c := FindChange(e.payload.req.uuid);
      resp, result := ExecuteAt(e);
      AnswerChange(e, c, resp);
      ChangeIs(s, View(), e, Outcome(core, resp, result));
    }

    method ApplyNormal(e: Entry) returns (resp: Option<Resp>, result: Option<Result>)
      requires !e.payload.Empty? && !pendingRemove && !e.payload.req.body.ChangePeer?
      modifies this
      ensures View() == Recorded(old(View()), e, Outcome(core, resp, result))
      ensures Outcome(core, resp, result) == ApplyEntry(old(core), e)
    {
      ghost var s := View();
      var c := FindWaiting(e.term, e.payload.req.uuid);
      resp, result := ExecuteAt(e);
      AnswerNormal(e, c, resp);
      NormalIs(s, View(), e, Outcome(core, resp, result));
    }

    method ApplyRaftCMD(e: Entry) returns (resp: Option<Resp>, result: Option<Result>)
      requires !e.payload.Empty? && !pendingRemove
      modifies this
      ensures View() == Recorded(old(View()), e, Outcome(core, resp, result))
      ensures Outcome(core, resp, result) == ApplyEntry(old(core), e)
    {
      if e.payload.req.body.ChangePeer? {
        resp, result := ApplyChange(e);
      } else {
        resp, result := ApplyNormal(e);
      }
    }

    /** One committed entry. */
    method ApplyOne(e: Entry)
      requires live && !fatal && !pendingRemove
      modifies this
      ensures fatal == CommitStep(old(View()), e).fatal && (!fatal ==> View() == CommitStep(old(View()), e))
    {
      if e.index != core.apply.applied + 1 {
        fatal := true;
        return;
      }
      if e.payload.Empty? {
        ApplyEmptyEntry(e);
        return;
      }
      var resp, result := ApplyRaftCMD(e);
      if e.payload.ConfChange? && result.Some? && !result.value.PeerResult? {
        fatal := true;
      }
    }

    /** A delegate that has removed itself skips the rest of the batch. */
    method ApplyCommittedEntries(entries: seq<Entry>)
      requires live && !fatal
      modifies this
      ensures var t := CommitAll(old(View()), entries); fatal == t.fatal && (!fatal ==> View() == t)
    {
      ghost var s := View();
      var i := 0;
      while i < |entries| && !fatal && !pendingRemove
        invariant i <= |entries| && fatal == CommitAll(s, entries[..i]).fatal
        invariant !fatal ==> live && View() == CommitAll(s, entries[..i])
      {
        CommitAllNext(s, entries, i);
        ApplyOne(entries[i]);
        i := i + 1;
      }
      if i == |entries| {
        assert entries[..i] == entries;
      } else {
        SkipRest(s, entries, i);
      }
    }

    /** Every command that still waits is told that the cell is gone. */
    method DestroyDelegate()
      modifies this
      ensures View() == DestroyStep(old(View()))
    {
      if live {
        ghost var was := handled;
        for i := 0 to |pendingCMDs|
          invariant View() == old(View()).(handled := was + ToldRemoved(pendingCMDs[..i]))
        {
          handled := handled + [Handled(pendingCMDs[i].uuid, pendingCMDs[i].term, Removed)];
          assert pendingCMDs[..i + 1] == pendingCMDs[..i] + [pendingCMDs[i]];
        }
        assert pendingCMDs[..|pendingCMDs|] == pendingCMDs;
        if pendingChangePeerCMD.Waiting? {
          changeReplies := changeReplies + [Handled(pendingChangePeerCMD.cmd.uuid, pendingChangePeerCMD.cmd.term, Removed)];
        }
        pendingCMDs, pendingChangePeerCMD, live := [], NoChange, false;
      }
    }

    /** One batch of committed entries; without a delegate it fails and changes nothing. */
    method DoApplyCommittedEntries(raftTerm: nat, entries: seq<Entry>)
      requires !fatal
      modifies this
      ensures var t := Next(CommitAll(Next(old(View()), Begin(raftTerm)), entries), End);
              live || old(live) ==> fatal == t.fatal && (!fatal ==> View() == t)
      ensures !old(live) ==> View() == old(View())
    {
      if !live {
        return;
      }
      term := raftTerm;
      ApplyCommittedEntries(entries);
      if !fatal && pendingRemove {
        DestroyDelegate();
      }
    }

    method DoPropose(c: Cmd, isConfChange: bool)
      requires !fatal
      modifies this
      ensures View() == ProposeStep(old(View()), c, isConfChange)
    {
      if isConfChange {
        changes := changes + [c];
      } else {
        proposed := proposed + [c];
      }
      if !live {
        if isConfChange {
          changeReplies := changeReplies + [Handled(c.uuid, c.term, Removed)];
        } else {
          handled := handled + [Handled(c.uuid, c.term, Removed)];
        }
      } else if isConfChange {
        if pendingChangePeerCMD.Waiting? {
          changeReplies := changeReplies + [Handled(pendingChangePeerCMD.cmd.uuid, term, Cleared)];
        }
        pendingChangePeerCMD := Waiting(c);
      } else {
        pendingCMDs := pendingCMDs + [c];
      }
    }

    /** The answers of clearAllCommandsAsStale; an answered slot is dereferenced and kills the process. */
    method ClearAllCommandsAsStale()
      modifies `handled, `changeReplies, `pendingCMDs, `pendingChangePeerCMD, `fatal
      ensures fatal == (old(fatal) || old(pendingChangePeerCMD).Answered?)
      ensures !fatal ==> handled == old(handled) + ToldCleared(old(pendingCMDs), term)
                         && changeReplies == old(changeReplies) + ToldCleared(InSlot(old(pendingChangePeerCMD)), term)
                         && pendingCMDs == [] && pendingChangePeerCMD == NoChange
    {
      ghost var was := pendingCMDs;
      for i := 0 to |pendingCMDs|
        invariant pendingCMDs == was && fatal == old(fatal)
        invariant pendingChangePeerCMD == old(pendingChangePeerCMD) && changeReplies == old(changeReplies)
        invariant handled == old(handled) + ToldCleared(was[..i], term)
      {
        handled := handled + [Handled(pendingCMDs[i].uuid, term, Cleared)];
        assert was[..i + 1] == was[..i] + [was[i]];
      }
      assert was[..|was|] == was;
      if pendingChangePeerCMD.Answered? {
        fatal := true;
        return;
      }
      if pendingChangePeerCMD.Waiting? {
        changeReplies := changeReplies + [Handled(pendingChangePeerCMD.cmd.uuid, term, Cleared)];
      }
      pendingCMDs, pendingChangePeerCMD := [], NoChange;
    }

    method TakeOver(start: Core, peer: nat)
      modifies this
      ensures View() == old(View()).(live := true, peerId := peer, removed := false, core := start,
              floor := |old(proposed)|, mark := |old(changes)|)
    {
      live, peerId, pendingRemove, core, floor, mark := true, peer, false, start, |proposed|, |changes|;
    }

    /** A new delegate takes over after a start or a snapshot. */
    method DoRegistration(start: Core, raftTerm: nat, peer: nat)
      requires !fatal && (!live ==> pendingCMDs == [] && pendingChangePeerCMD == NoChange)
      modifies this
      ensures var t := RegisterStep(old(View()), start, raftTerm, peer); fatal == t.fatal && (!fatal ==> View() == t)
    {
      if live && peerId != peer {
        fatal := true;
        return;
      }
      ghost var s := View();
      term := raftTerm;
      ClearAllCommandsAsStale();
      if fatal {
        return;
      }
      TakeOver(start, peer);
      RegisterIs(s, View(), start, raftTerm, peer);
    }
  }
}
