/** One apply delegate over whole runs: proposals, committed entries, registrations and removal. */
module ApplyRuns {
  import opened Cells
  import opened ApplyCore

  datatype Cmd = Cmd(uuid: nat, term: nat)

  /** The pending change-peer command; Answered is the slot that still points at an answered command. */
  datatype Slot = NoChange | Waiting(cmd: Cmd) | Answered

  /** Done and Stale name the applied entry that decided; Cleared is the stale answer given by a
      registration or by a later change-peer proposal; Removed is the cell-not-found answer. */
  datatype Reply = Done(pos: nat) | Stale(pos: nat) | Cleared | Removed

  datatype Handled = Handled(uuid: nat, term: nat, reply: Reply)

  /** An applied entry, the number of commands proposed before it was applied, and the response built. */
  datatype Record = Record(entry: Entry, at: nat, resp: Option<Resp>)

  /** From `proposed` on the fields are the history of the run; floor and mark count the normal and the
      change-peer commands proposed before the last registration. */
  datatype State = State(
    live: bool, peerId: nat, removed: bool, core: Core, term: nat, pending: seq<Cmd>, change: Slot, fatal: bool,
    proposed: seq<Cmd>, handled: seq<Handled>, changes: seq<Cmd>, changeReplies: seq<Handled>,
    applied: seq<Record>, floor: nat, mark: nat)

  /** A batch of committed entries is Begin, one Commit per entry, End. */
  datatype Event =
    | Propose(cmd: Cmd, conf: bool)
    | Begin(term: nat)
    | Commit(entry: Entry)
    | End
    | Register(core: Core, term: nat, peerId: nat)
    | Destroy

  // ---- the queue ----

  /** How many commands findCB pops for a normal entry, and whether the last of them is the entry's own. */
  function FindCB(pending: seq<Cmd>, term: nat, uuid: nat): (r: (nat, bool))
    ensures r.0 <= |pending| && (r.1 ==> r.0 > 0 && pending[r.0 - 1].uuid == uuid)
  {
    if |pending| == 0 || pending[0].term > term then (0, false)
    else if pending[0].uuid == uuid then (1, true)
    else
      var (k, hit) := FindCB(pending[1..], term, uuid);
      (k + 1, hit)
  }

  /** findCB pops only commands of the entry's term or older, and stops at the entry's own command, at a
      command of a later term or at the end. */
  lemma {:induction false} FindCBStops(pending: seq<Cmd>, term: nat, uuid: nat)
    ensures var (k, hit) := FindCB(pending, term, uuid);
            && (forall i :: 0 <= i < k ==> pending[i].term <= term)
            && (forall i :: 0 <= i < k && pending[i].uuid == uuid ==> hit && i == k - 1)
            && (!hit ==> k == |pending| || pending[k].term > term)
  {
    if |pending| > 0 && pending[0].term <= term && pending[0].uuid != uuid {
      FindCBStops(pending[1..], term, uuid);
      assert forall i :: 1 <= i < |pending| ==> pending[i] == pending[1..][i - 1];
    }
  }

  /** How many commands an empty entry pops: the longest prefix with terms below the entry's. */
  function Sweep(pending: seq<Cmd>, term: nat): (k: nat)
    ensures k <= |pending|
    ensures forall i :: 0 <= i < k ==> pending[i].term < term
    ensures k == |pending| || pending[k].term >= term
  {
    if |pending| == 0 || pending[0].term >= term then 0 else Sweep(pending[1..], term) + 1
  }

  function ToldStale(cmds: seq<Cmd>, term: nat, pos: nat): seq<Handled>
  {
    seq(|cmds|, i requires 0 <= i < |cmds| => Handled(cmds[i].uuid, term, Stale(pos)))
  }

  lemma ToldStaleNext(cmds: seq<Cmd>, n: nat, term: nat, pos: nat, so: seq<Handled>)
    requires n < |cmds|
    ensures so + ToldStale(cmds[..n], term, pos) + [Handled(cmds[n].uuid, term, Stale(pos))] == so + ToldStale(cmds[..n + 1], term, pos)
  {
    assert cmds[..n + 1] == cmds[..n] + [cmds[n]];
  }

  function ToldCleared(cmds: seq<Cmd>, term: nat): seq<Handled>
  {
    seq(|cmds|, i requires 0 <= i < |cmds| => Handled(cmds[i].uuid, term, Cleared))
  }

  function ToldRemoved(cmds: seq<Cmd>): seq<Handled>
  {
    seq(|cmds|, i requires 0 <= i < |cmds| => Handled(cmds[i].uuid, cmds[i].term, Removed))
  }

  function InSlot(slot: Slot): seq<Cmd>
  {
    if slot.Waiting? then [slot.cmd] else []
  }

  // ---- the steps ----

  function ProposeStep(s: State, c: Cmd, conf: bool): State
  {
    if conf then
      var t := s.(changes := s.changes + [c]);
      if !s.live then t.(changeReplies := s.changeReplies + ToldRemoved([c]))
      else t.(change := Waiting(c), changeReplies := s.changeReplies + ToldCleared(InSlot(s.change), s.term))
    else
      var t := s.(proposed := s.proposed + [c]);
      if !s.live then t.(handled := s.handled + ToldRemoved([c])) else t.(pending := s.pending + [c])
  }

  function EmptyStep(s: State, e: Entry): State
  {
    var k := Sweep(s.pending, e.term);
    s.(core := ApplyEntry(s.core, e).core,
    pending := s.pending[k..],
    handled := s.handled + ToldStale(s.pending[..k], s.term, |s.applied|),
    applied := s.applied + [Record(e, |s.proposed|, None)])
  }

  function NormalAnswer(s: State, e: Entry): State
    requires !e.payload.Empty?
  {
    var uuid := e.payload.req.uuid;
    var (k, hit) := FindCB(s.pending, e.term, uuid);
    var own := if hit then [Handled(uuid, e.term, Done(|s.applied|))] else [];
    s.(pending := s.pending[k..],
    handled := s.handled + ToldStale(s.pending[..if hit then k - 1 else k], s.term, |s.applied|) + own)
  }

  /** A matched change-peer command without a response stays in its slot. */
  function ChangeAnswer(s: State, e: Entry, answered: bool): State
    requires !e.payload.Empty?
  {
    if !s.change.Waiting? then s
    else if s.change.cmd.uuid != e.payload.req.uuid then
      s.(change := Answered, changeReplies := s.changeReplies + ToldStale([s.change.cmd], s.term, |s.applied|))
    else if answered then
      s.(change := Answered, changeReplies := s.changeReplies + [Handled(s.change.cmd.uuid, e.term, Done(|s.applied|))])
    else s
  }

  /** The result of a conf-change entry is taken to be a change-peer result. */
  predicate BadResult(e: Entry, o: Outcome)
  {
    e.payload.ConfChange? && o.result.Some? && !o.result.value.PeerResult?
  }

  /** A command entry whose execution has outcome o. */
  function Recorded(s: State, e: Entry, o: Outcome): State
    requires !e.payload.Empty?
  {
    var t := if e.payload.req.body.ChangePeer? then ChangeAnswer(s, e, o.resp.Some?) else NormalAnswer(s, e);
    t.(core := o.core, term := e.term, removed := RemovesSelf(s.core.cell, e.payload.req, s.peerId),
    applied := s.applied + [Record(e, |s.proposed|, o.resp)])
  }

  function CommandStep(s: State, e: Entry): State
    requires !e.payload.Empty?
  {
    Recorded(s, e, ApplyEntry(s.core, e))
  }

  function CommitStep(s: State, e: Entry): State
  {
    if !s.live || s.removed then s
    else if e.index != s.core.apply.applied + 1 then s.(fatal := true)
    else if e.payload.Empty? then (if e.term == 0 then s.(fatal := true) else EmptyStep(s, e))
    else if BadResult(e, ApplyEntry(s.core, e)) then s.(fatal := true)
    else CommandStep(s, e)
  }

  function DestroyStep(s: State): State
  {
    if !s.live then s
    else s.(live := false, pending := [], change := NoChange,
         handled := s.handled + ToldRemoved(s.pending),
         changeReplies := s.changeReplies + ToldRemoved(InSlot(s.change)))
  }

  /** A registration replaces the delegate; it dies on an answered change-peer slot. */
  function RegisterStep(s: State, core: Core, term: nat, peerId: nat): State
  {
    if s.live && (s.peerId != peerId || s.change.Answered?) then s.(fatal := true)
    else s.(live := true, peerId := peerId, removed := false, core := core, term := term, pending := [], change := NoChange,
         handled := s.handled + ToldCleared(s.pending, term),
         changeReplies := s.changeReplies + ToldCleared(InSlot(s.change), term),
         floor := |s.proposed|, mark := |s.changes|)
  }

  function Next(s: State, ev: Event): State
  {
    if s.fatal then s
    else
      match ev
      case Propose(c, conf) => ProposeStep(s, c, conf)
      case Begin(term) => if s.live then s.(term := term) else s
      case Commit(e) => CommitStep(s, e)
      case End => if s.live && s.removed then DestroyStep(s) else s
      case Register(core, term, peerId) => RegisterStep(s, core, term, peerId)
      case Destroy => DestroyStep(s)
  }

  function Run(s: State, events: seq<Event>): State
  {
    if |events| == 0 then s
    else
      var n := |events| - 1;
      Next(Run(s, events[..n]), events[n])
  }

  /** The committed entries of one batch, one after the other. */
  function CommitAll(s: State, entries: seq<Entry>): State
  {
    if |entries| == 0 then s
    else
      var n := |entries| - 1;
      Next(CommitAll(s, entries[..n]), Commit(entries[n]))
  }

  lemma CommitAllNext(s: State, entries: seq<Entry>, i: nat)
    requires i < |entries|
    ensures CommitAll(s, entries[..i + 1]) == Next(CommitAll(s, entries[..i]), Commit(entries[i]))
  {
    assert entries[..i + 1][..i] == entries[..i];
  }

  /** Nothing more happens to a delegate that removed itself. */
  lemma {:induction false} SkipRest(s: State, entries: seq<Entry>, i: nat)
    requires i <= |entries| && var t := CommitAll(s, entries[..i]); t.fatal || t.removed
    ensures CommitAll(s, entries) == CommitAll(s, entries[..i])
    decreases |entries|
  {
    if i == |entries| {
      assert entries[..i] == entries;
    } else {
      var n := |entries| - 1;
      assert entries[..n][..i] == entries[..i];
      SkipRest(s, entries[..n], i);
    }
  }

  /** A store before it holds a delegate for the cell. */
  function Initial(core: Core): State
  {
    State(false, 0, false, core, 0, [], NoChange, false, [], [], [], [], [], 0, 0)
  }

  // ---- every command is handled once, in order ----

  predicate SameUuids(replies: seq<Handled>, cmds: seq<Cmd>)
  {
    |replies| <= |cmds| && forall i :: 0 <= i < |replies| ==> replies[i].uuid == cmds[i].uuid
  }

  predicate Fifo(s: State)
  {
    && SameUuids(s.handled, s.proposed)
    && s.pending == s.proposed[|s.handled|..]
    && SameUuids(s.changeReplies, s.changes)
    && InSlot(s.change) == s.changes[|s.changeReplies|..]
    && (!s.live ==> s.pending == [] && s.change == NoChange)
  }

  lemma Pop(replies: seq<Handled>, cmds: seq<Cmd>, pending: seq<Cmd>, k: nat, more: seq<Handled>)
    requires SameUuids(replies, cmds) && pending == cmds[|replies|..] && k <= |pending| && |more| == k
    requires forall i :: 0 <= i < k ==> more[i].uuid == pending[i].uuid
    ensures SameUuids(replies + more, cmds) && pending[k..] == cmds[|replies + more|..]
  {
  }

  lemma NormalFifo(s: State, e: Entry)
    requires Fifo(s) && s.live && !e.payload.Empty?
    ensures Fifo(NormalAnswer(s, e))
  {
    var t := NormalAnswer(s, e);
    var (k, hit) := FindCB(s.pending, e.term, e.payload.req.uuid);
    Pop(s.handled, s.proposed, s.pending, k, t.handled[|s.handled|..]);
    assert t.handled == s.handled + t.handled[|s.handled|..];
  }

  lemma ChangeFifo(s: State, e: Entry, answered: bool)
    requires Fifo(s) && s.live && !e.payload.Empty?
    ensures Fifo(ChangeAnswer(s, e, answered))
  {
    var t := ChangeAnswer(s, e, answered);
    if t.change != s.change {
      Pop(s.changeReplies, s.changes, [s.change.cmd], 1, t.changeReplies[|s.changeReplies|..]);
      assert t.changeReplies == s.changeReplies + t.changeReplies[|s.changeReplies|..];
    }
  }

  lemma CommitFifo(s: State, e: Entry)
    requires Fifo(s)
    ensures Fifo(CommitStep(s, e))
  {
    if s.live && !s.removed && e.index == s.core.apply.applied + 1 {
      if e.payload.Empty? {
        var k := Sweep(s.pending, e.term);
        Pop(s.handled, s.proposed, s.pending, k, ToldStale(s.pending[..k], s.term, |s.applied|));
      } else if e.payload.req.body.ChangePeer? {
        ChangeFifo(s, e, ApplyEntry(s.core, e).resp.Some?);
      } else {
        NormalFifo(s, e);
      }
    }
  }

  lemma EmptiesFifo(s: State, more: seq<Handled>, moreChanges: seq<Handled>)
    requires Fifo(s) && |more| == |s.pending| && |moreChanges| == |InSlot(s.change)|
    requires forall i :: 0 <= i < |more| ==> more[i].uuid == s.pending[i].uuid
    requires forall i :: 0 <= i < |moreChanges| ==> moreChanges[i].uuid == InSlot(s.change)[i].uuid
    ensures SameUuids(s.handled + more, s.proposed) && |s.handled + more| == |s.proposed|
    ensures SameUuids(s.changeReplies + moreChanges, s.changes) && |s.changeReplies + moreChanges| == |s.changes|
  {
    Pop(s.handled, s.proposed, s.pending, |more|, more);
    Pop(s.changeReplies, s.changes, InSlot(s.change), |moreChanges|, moreChanges);
  }

  lemma NextFifo(s: State, ev: Event)
    requires Fifo(s)
    ensures Fifo(Next(s, ev))
  {
    match ev
    case Commit(e) => CommitFifo(s, e);
    case Register(core, term, peerId) =>
      EmptiesFifo(s, ToldCleared(s.pending, term), ToldCleared(InSlot(s.change), term));
    case Destroy => EmptiesFifo(s, ToldRemoved(s.pending), ToldRemoved(InSlot(s.change)));
    case End => EmptiesFifo(s, ToldRemoved(s.pending), ToldRemoved(InSlot(s.change)));
    case Propose(c, conf) =>
      EmptiesFifo(s, ToldCleared(s.pending, s.term), ToldCleared(InSlot(s.change), s.term));
    case Begin(_) =>
  }

  /** Every proposed command is handled once and in proposal order, or still waits: the handled
      commands followed by the waiting ones are the proposed ones, for both kinds of command. */
  lemma {:induction false} EachHandledOnce(core: Core, events: seq<Event>)
    ensures Fifo(Run(Initial(core), events))
  {
    if |events| > 0 {
      var n := |events| - 1;
      EachHandledOnce(core, events[..n]);
      NextFifo(Run(Initial(core), events[..n]), events[n]);
    }
  }
}
