/** What the answers of an apply delegate mean: whose result a command gets, and what stale implies. */
module ApplyAnswers {
  import opened Cells
  import opened ApplyStates
  import opened ApplyCore
  import opened ApplyRuns

  predicate Carries(r: Record, uuid: nat)
  {
    !r.entry.payload.Empty? && !r.entry.payload.req.body.ChangePeer? && r.entry.payload.req.uuid == uuid
  }

  predicate CarriesChange(r: Record, uuid: nat)
  {
    !r.entry.payload.Empty? && r.entry.payload.req.body.ChangePeer? && r.entry.payload.req.uuid == uuid
  }

  // ---- a matched command gets the result of its own entry ----

  predicate OwnResult(h: Handled, applied: seq<Record>)
  {
    h.reply.Done? ==> h.reply.pos < |applied| && Carries(applied[h.reply.pos], h.uuid) && h.term == applied[h.reply.pos].entry.term
  }

  /** A change-peer command is only answered when its entry built a response. */
  predicate OwnChange(h: Handled, applied: seq<Record>)
  {
    h.reply.Done? ==> h.reply.pos < |applied| && CarriesChange(applied[h.reply.pos], h.uuid)
                      && h.term == applied[h.reply.pos].entry.term && applied[h.reply.pos].resp.Some?
  }

  predicate Own(s: State)
  {
    && (forall i :: 0 <= i < |s.handled| ==> OwnResult(s.handled[i], s.applied))
    && (forall i :: 0 <= i < |s.changeReplies| ==> OwnChange(s.changeReplies[i], s.applied))
  }

  /** Answers given so far keep their entries when more is applied. */
  lemma OwnStays(s: State, t: State)
    requires Own(s) && s.applied <= t.applied && s.handled <= t.handled && s.changeReplies <= t.changeReplies
    requires forall i :: |s.handled| <= i < |t.handled| ==> OwnResult(t.handled[i], t.applied)
    requires forall i :: |s.changeReplies| <= i < |t.changeReplies| ==> OwnChange(t.changeReplies[i], t.applied)
    ensures Own(t)
  {
    assert forall i :: 0 <= i < |s.handled| ==> OwnResult(s.handled[i], s.applied);
    assert forall i :: 0 <= i < |s.changeReplies| ==> OwnChange(s.changeReplies[i], s.applied);
  }

  lemma NormalOwn(s: State, e: Entry)
    requires Own(s) && !e.payload.Empty? && !e.payload.req.body.ChangePeer?
    ensures Own(CommandStep(s, e))
  {
    var t := CommandStep(s, e);
    assert t.applied == s.applied + [t.applied[|s.applied|]];
    OwnStays(s, t);
  }

  lemma ChangeOwn(s: State, e: Entry)
    requires Own(s) && !e.payload.Empty? && e.payload.req.body.ChangePeer?
    ensures Own(CommandStep(s, e))
  {
    OwnStays(s, CommandStep(s, e));
  }

  lemma NextOwn(s: State, ev: Event)
    requires Own(s)
    ensures Own(Next(s, ev))
  {
    var t := Next(s, ev);
    if ev.Commit? && !ev.entry.payload.Empty? {
      if ev.entry.payload.req.body.ChangePeer? {
        ChangeOwn(s, ev.entry);
      } else {
        NormalOwn(s, ev.entry);
      }
    } else {
      OwnStays(s, t);
    }
  }

  lemma {:induction false} MatchedGetsOwnResult(core: Core, events: seq<Event>)
    ensures Own(Run(Initial(core), events))
  {
    if |events| > 0 {
      var n := |events| - 1;
      MatchedGetsOwnResult(core, events[..n]);
      NextOwn(Run(Initial(core), events[..n]), events[n]);
    }
  }

  // ---- what raft promises the delegate ----

  predicate TermsOrdered(applied: seq<Record>)
  {
    forall i, j :: 0 <= i < j < |applied| ==> applied[i].entry.term <= applied[j].entry.term
  }

  predicate DistinctUuids(proposed: seq<Cmd>)
  {
    forall i, j :: 0 <= i < j < |proposed| ==> proposed[i].uuid != proposed[j].uuid
  }

  predicate ProposalTerms(proposed: seq<Cmd>)
  {
    forall i, j :: 0 <= i < j < |proposed| ==> proposed[i].term <= proposed[j].term
  }

  /** Applied entry j is the entry of proposed command i. */
  predicate EntryOf(s: State, i: nat, j: nat)
    requires i < |s.proposed| && j < |s.applied|
  {
    Carries(s.applied[j], s.proposed[i].uuid)
  }

  /** A command's entry has the command's term and is applied after the proposal. */
  predicate EntriesMatch(s: State)
  {
    forall i, j :: 0 <= i < |s.proposed| && 0 <= j < |s.applied| && EntryOf(s, i, j) ==>
                     s.applied[j].entry.term == s.proposed[i].term && i < s.applied[j].at
  }

  /** Entries of proposed commands are applied in proposal order, once each. */
  predicate EntriesOrdered(s: State)
  {
    forall i, j, k, l | 0 <= i < |s.proposed| && 0 <= k < |s.proposed| && 0 <= j < l < |s.applied| ::
      EntryOf(s, i, j) && EntryOf(s, k, l) ==> i < k
  }

  predicate ProposedHere(s: State, j: nat)
    requires j < |s.applied|
  {
    exists i :: 0 <= i < |s.proposed| && EntryOf(s, i, j)
  }

  predicate IsNormal(e: Entry)
  {
    !e.payload.Empty? && !e.payload.req.body.ChangePeer?
  }

  /** A term has one leader: a normal entry of a term in which this peer proposed was proposed here. */
  predicate OneLeader(s: State)
  {
    forall i, j | 0 <= i < |s.proposed| && 0 <= j < |s.applied| && s.applied[j].entry.term == s.proposed[i].term ::
      IsNormal(s.applied[j].entry) ==> ProposedHere(s, j)
  }

  /** A peer that was registered again leads only in later terms. */
  predicate NewTerm(s: State)
  {
    forall i, j :: 0 <= i < s.floor <= j < |s.proposed| ==> s.proposed[i].term < s.proposed[j].term
  }

  predicate Env(s: State)
  {
    && TermsOrdered(s.applied) && DistinctUuids(s.proposed) && ProposalTerms(s.proposed)
    && EntriesMatch(s) && EntriesOrdered(s) && OneLeader(s) && NewTerm(s)
  }

  /** The promises hold throughout the run. */
  predicate EnvRun(s: State, events: seq<Event>)
  {
    Env(Run(s, events)) && (|events| == 0 || EnvRun(s, events[..|events| - 1]))
  }

  // ---- stale commands are never applied ----

  /** Position p rules the command out: a later term, or a command proposed later. */
  predicate Overtaken(s: State, i: nat, p: nat)
    requires i < |s.proposed|
  {
    p < |s.applied|
    && (s.proposed[i].term < s.applied[p].entry.term || exists k :: i < k < |s.proposed| && EntryOf(s, k, p))
  }

  predicate NeverApplied(s: State, i: nat)
    requires i < |s.proposed|
  {
    forall j :: 0 <= j < |s.applied| ==> !EntryOf(s, i, j)
  }

  predicate GivenUp(h: Handled)
  {
    h.reply.Cleared? || h.reply.Removed?
  }

  predicate StaleInv(s: State)
    requires Fifo(s)
  {
    && (forall i :: 0 <= i < |s.handled| && s.handled[i].reply.Stale? ==>
          Overtaken(s, i, s.handled[i].reply.pos) && NeverApplied(s, i))
    && (forall i :: |s.handled| <= i < |s.proposed| ==> NeverApplied(s, i))
    && (s.live ==> s.floor <= |s.handled|)
    && (s.live ==> forall i :: 0 <= i < |s.handled| && GivenUp(s.handled[i]) ==> i < s.floor)
  }

  /** A commit that applies the entry: the history before and after. */
  predicate Applies(s: State, t: State, e: Entry)
  {
    && |t.applied| == |s.applied| + 1 && t.applied[..|s.applied|] == s.applied && t.applied[|s.applied|].entry == e
    && t.applied[|s.applied|].at == |s.proposed|
    && t.proposed == s.proposed && s.handled <= t.handled
  }

  /** A command told stale before is not what the new entry carries. */
  lemma StaleStays(s: State, t: State, e: Entry, i: nat)
    requires Fifo(s) && StaleInv(s) && Env(t) && Applies(s, t, e)
    requires i < |s.handled| && s.handled[i].reply.Stale?
    ensures NeverApplied(t, i) && Overtaken(t, i, s.handled[i].reply.pos)
  {
    var p := s.handled[i].reply.pos;
    var n := |s.applied|;
    assert Overtaken(s, i, p) && NeverApplied(s, i);
    assert forall j :: 0 <= j < n ==> t.applied[j] == s.applied[j];
    assert forall k, j :: 0 <= k < |s.proposed| && 0 <= j < n ==> EntryOf(t, k, j) == EntryOf(s, k, j);
    if s.proposed[i].term >= s.applied[p].entry.term {
      var k :| i < k < |s.proposed| && EntryOf(s, k, p);
      assert EntryOf(t, k, p);
    }
  }

  /** A command popped although it is not the entry's own is overtaken by the entry. */
  lemma PoppedIsOvertaken(s: State, t: State, e: Entry, i: nat)
    requires Fifo(s) && StaleInv(s) && Own(s) && s.live && Env(t) && Applies(s, t, e) && t.floor == s.floor
    requires |s.handled| <= i < |s.proposed| && s.proposed[i].term <= e.term && IsNormal(e)
    requires forall k :: |s.handled| <= k <= i ==> s.proposed[k].uuid != e.payload.req.uuid
    ensures Overtaken(t, i, |s.applied|)
  {
    var n := |s.applied|;
    if s.proposed[i].term == e.term {
      assert t.applied[n].entry.term == t.proposed[i].term;
      assert ProposedHere(t, n);
      var k :| 0 <= k < |t.proposed| && EntryOf(t, k, n);
      if k <= i {
        assert k < |s.handled|;
        HandledNotCarried(s, t, e, k, i);
      }
    }
  }

  /** The entry of a command handled earlier does not turn up in the term of a waiting one. */
  lemma HandledNotCarried(s: State, t: State, e: Entry, k: nat, i: nat)
    requires Fifo(s) && StaleInv(s) && Own(s) && s.live && Env(t) && Applies(s, t, e) && t.floor == s.floor
    requires k < |s.handled| <= i < |s.proposed| && s.proposed[i].term == e.term
    ensures !EntryOf(t, k, |s.applied|)
  {
    var n := |s.applied|;
    var h := s.handled[k];
    match h.reply
    case Stale(_) => StaleStays(s, t, e, k);
    case Done(p) =>
      assert OwnResult(h, s.applied);
      assert t.applied[p] == s.applied[p];
      assert EntryOf(t, k, p);
    case Cleared => assert GivenUp(h);
    case Removed => assert GivenUp(h);
  }

  /** A command that still waits after the entry is not the entry's own. */
  lemma StillWaits(s: State, t: State, e: Entry, k: nat, hit: bool, i: nat)
    requires Fifo(s) && StaleInv(s) && Env(t) && Applies(s, t, e) && IsNormal(e)
    requires (k, hit) == FindCB(s.pending, e.term, e.payload.req.uuid)
    requires |s.handled| + k <= i < |s.proposed|
    ensures NeverApplied(t, i)
  {
    var h := |s.handled|;
    FindCBStops(s.pending, e.term, e.payload.req.uuid);
    assert forall m :: 0 <= m < |s.pending| ==> s.pending[m] == s.proposed[h + m];
    StillNever(s, t, e, i);
  }

  /** What a normal entry does to the history. */
  predicate Pops(s: State, t: State, e: Entry, k: nat, hit: bool)
    requires IsNormal(e)
  {
    && Applies(s, t, e) && t.live == s.live && t.floor == s.floor
    && (k, hit) == FindCB(s.pending, e.term, e.payload.req.uuid)
    && |t.handled| == |s.handled| + k
    && (forall i :: |s.handled| <= i < |t.handled| ==>
          t.handled[i].reply == if hit && i == |t.handled| - 1 then Done(|s.applied|) else Stale(|s.applied|))
  }

  lemma NormalPops(s: State, e: Entry, k: nat, hit: bool)
    requires IsNormal(e) && (k, hit) == FindCB(s.pending, e.term, e.payload.req.uuid)
    ensures Pops(s, CommandStep(s, e), e, k, hit)
  {
  }

  /** The waiting command with number i, as it stands when the entry pops it without a match. */
  lemma PoppedFacts(s: State, e: Entry, k: nat, hit: bool, i: nat)
    requires Fifo(s) && IsNormal(e) && (k, hit) == FindCB(s.pending, e.term, e.payload.req.uuid)
    requires |s.handled| <= i < |s.handled| + if hit then k - 1 else k
    ensures i < |s.proposed| && s.proposed[i].term <= e.term
    ensures forall m :: |s.handled| <= m <= i ==> s.proposed[m].uuid != e.payload.req.uuid
  {
    var h := |s.handled|;
    FindCBStops(s.pending, e.term, e.payload.req.uuid);
    assert forall m :: h <= m < |s.proposed| ==> s.proposed[m] == s.pending[m - h];
  }

  lemma StillNever(s: State, t: State, e: Entry, i: nat)
    requires Applies(s, t, e) && i < |s.proposed| && NeverApplied(s, i) && !EntryOf(t, i, |s.applied|)
    ensures NeverApplied(t, i)
  {
    assert forall j :: 0 <= j < |s.applied| ==> t.applied[j] == s.applied[j] && EntryOf(t, i, j) == EntryOf(s, i, j);
  }

  lemma NewStale(s: State, t: State, e: Entry, k: nat, hit: bool, i: nat)
    requires Fifo(s) && StaleInv(s) && Own(s) && s.live && IsNormal(e) && Pops(s, t, e, k, hit) && Env(t)
    requires |s.handled| <= i < |s.handled| + if hit then k - 1 else k
    ensures Overtaken(t, i, |s.applied|) && NeverApplied(t, i)
  {
    PoppedFacts(s, e, k, hit, i);
    PoppedIsOvertaken(s, t, e, i);
    StillNever(s, t, e, i);
  }

  lemma NormalStale(s: State, t: State, e: Entry, k: nat, hit: bool, i: nat)
    requires Fifo(s) && StaleInv(s) && Own(s) && s.live && IsNormal(e) && Pops(s, t, e, k, hit) && Env(t) && Fifo(t)
    requires i < |t.handled| && t.handled[i].reply.Stale?
    ensures Overtaken(t, i, t.handled[i].reply.pos) && NeverApplied(t, i)
  {
    if i < |s.handled| {
      StaleStays(s, t, e, i);
    } else {
      NewStale(s, t, e, k, hit, i);
    }
  }

  lemma NormalKeeps(s: State, t: State, e: Entry, k: nat, hit: bool)
    requires Fifo(s) && StaleInv(s) && Own(s) && s.live && IsNormal(e) && Pops(s, t, e, k, hit) && Env(t) && Fifo(t)
    ensures StaleInv(t)
  {
    forall i | 0 <= i < |t.handled| && t.handled[i].reply.Stale?
      ensures Overtaken(t, i, t.handled[i].reply.pos) && NeverApplied(t, i)
    {
      NormalStale(s, t, e, k, hit, i);
    }
    forall i | |t.handled| <= i < |t.proposed|
      ensures NeverApplied(t, i)
    {
      StillWaits(s, t, e, k, hit, i);
    }
  }

  /** Entries that carry no normal command: those told stale are of an earlier term. */
  predicate Sweeps(s: State, t: State, e: Entry, k: nat)
  {
    && Applies(s, t, e) && t.live == s.live && t.floor == s.floor && |t.handled| == |s.handled| + k
    && k <= |s.pending| && !IsNormal(e)
    && (forall i :: |s.handled| <= i < |t.handled| ==> t.handled[i].reply == Stale(|s.applied|))
    && (forall i :: 0 <= i < k ==> s.pending[i].term < e.term)
  }

  lemma OtherStale(s: State, t: State, e: Entry, k: nat, i: nat)
    requires Fifo(s) && StaleInv(s) && Env(t) && Fifo(t) && Sweeps(s, t, e, k)
    requires i < |t.handled| && t.handled[i].reply.Stale?
    ensures Overtaken(t, i, t.handled[i].reply.pos) && NeverApplied(t, i)
  {
    if i < |s.handled| {
      StaleStays(s, t, e, i);
    } else {
      assert s.proposed[i] == s.pending[i - |s.handled|];
      StillNever(s, t, e, i);
    }
  }

  lemma OtherKeeps(s: State, t: State, e: Entry, k: nat)
    requires Fifo(s) && StaleInv(s) && Env(t) && Fifo(t) && Sweeps(s, t, e, k)
    ensures StaleInv(t)
  {
    forall i | 0 <= i < |t.handled| && t.handled[i].reply.Stale?
      ensures Overtaken(t, i, t.handled[i].reply.pos) && NeverApplied(t, i)
    {
      OtherStale(s, t, e, k, i);
    }
    forall i | |t.handled| <= i < |t.proposed|
      ensures NeverApplied(t, i)
    {
      StillNever(s, t, e, i);
    }
  }

  lemma EmptySweeps(s: State, e: Entry)
    requires e.payload.Empty?
    ensures Sweeps(s, EmptyStep(s, e), e, Sweep(s.pending, e.term))
  {
  }

  lemma ChangeSweeps(s: State, e: Entry)
    requires !e.payload.Empty? && e.payload.req.body.ChangePeer?
    ensures Sweeps(s, CommandStep(s, e), e, 0)
  {
  }

  lemma NormalCommit(s: State, e: Entry)
    requires Fifo(s) && StaleInv(s) && Own(s) && s.live && IsNormal(e)
    requires Env(CommandStep(s, e)) && Fifo(CommandStep(s, e))
    ensures StaleInv(CommandStep(s, e))
  {
    var (k, hit) := FindCB(s.pending, e.term, e.payload.req.uuid);
    NormalPops(s, e, k, hit);
    NormalKeeps(s, CommandStep(s, e), e, k, hit);
  }

  lemma EmptyCommit(s: State, e: Entry)
    requires Fifo(s) && StaleInv(s) && e.payload.Empty? && Env(EmptyStep(s, e)) && Fifo(EmptyStep(s, e))
    ensures StaleInv(EmptyStep(s, e))
  {
    EmptySweeps(s, e);
    OtherKeeps(s, EmptyStep(s, e), e, Sweep(s.pending, e.term));
  }

  lemma ChangeCommit(s: State, e: Entry)
    requires Fifo(s) && StaleInv(s) && !e.payload.Empty? && e.payload.req.body.ChangePeer?
    requires Env(CommandStep(s, e)) && Fifo(CommandStep(s, e))
    ensures StaleInv(CommandStep(s, e))
  {
    ChangeSweeps(s, e);
    OtherKeeps(s, CommandStep(s, e), e, 0);
  }

  lemma CommitKeeps(s: State, e: Entry)
    requires Fifo(s) && StaleInv(s) && Own(s) && Env(CommitStep(s, e)) && Fifo(CommitStep(s, e))
    ensures StaleInv(CommitStep(s, e))
  {
    var t := CommitStep(s, e);
    if t == s || t == s.(fatal := true) {
      SameHistory(s, t);
    } else if IsNormal(e) {
      NormalCommit(s, e);
    } else if e.payload.Empty? {
      EmptyCommit(s, e);
    } else {
      ChangeCommit(s, e);
    }
  }

  /** Steps that apply nothing keep what is known of every earlier command. */
  lemma SameHistory(s: State, t: State)
    requires Fifo(s) && StaleInv(s) && Fifo(t)
    requires t.applied == s.applied && s.proposed <= t.proposed && s.handled <= t.handled
    requires forall i :: |s.handled| <= i < |t.handled| ==> GivenUp(t.handled[i])
    requires forall i :: |s.proposed| <= i < |t.proposed| ==> NeverApplied(t, i)
    requires t.live ==> t.floor <= |t.handled|
    requires t.live ==> forall i :: 0 <= i < |t.handled| && GivenUp(t.handled[i]) ==> i < t.floor
    ensures StaleInv(t)
  {
    assert forall i, j :: 0 <= i < |s.proposed| && 0 <= j < |s.applied| ==> EntryOf(t, i, j) == EntryOf(s, i, j);
    assert forall i :: 0 <= i < |s.proposed| ==> NeverApplied(t, i) == NeverApplied(s, i);
    forall i | 0 <= i < |t.handled| && t.handled[i].reply.Stale?
      ensures Overtaken(t, i, t.handled[i].reply.pos) && NeverApplied(t, i)
    {
      assert Overtaken(s, i, s.handled[i].reply.pos);
    }
  }

  predicate Counted(s: State)
  {
    forall j :: 0 <= j < |s.applied| ==> s.applied[j].at <= |s.proposed|
  }

  lemma NextCounted(s: State, ev: Event)
    requires Counted(s)
    ensures Counted(Next(s, ev))
  {
  }

  lemma ProposeKeeps(s: State, c: Cmd, conf: bool)
    requires Fifo(s) && StaleInv(s) && Counted(s) && Env(ProposeStep(s, c, conf)) && Fifo(ProposeStep(s, c, conf))
    ensures StaleInv(ProposeStep(s, c, conf))
  {
    var t := ProposeStep(s, c, conf);
    forall i | |s.proposed| <= i < |t.proposed|
      ensures NeverApplied(t, i)
    {
      assert forall j :: 0 <= j < |t.applied| && EntryOf(t, i, j) ==> i < t.applied[j].at;
    }
    SameHistory(s, t);
  }

  lemma NextKeeps(s: State, ev: Event)
    requires Fifo(s) && StaleInv(s) && Own(s) && Counted(s) && Env(Next(s, ev)) && Fifo(Next(s, ev))
    ensures StaleInv(Next(s, ev))
  {
    var t := Next(s, ev);
    if t == s {
    } else if ev.Commit? {
      CommitKeeps(s, ev.entry);
    } else if ev.Propose? {
      ProposeKeeps(s, ev.cmd, ev.conf);
    } else {
      SameHistory(s, t);
    }
  }

  lemma {:induction false} RunKeeps(core: Core, events: seq<Event>)
    requires EnvRun(Initial(core), events)
    ensures Fifo(Run(Initial(core), events)) && Counted(Run(Initial(core), events)) && StaleInv(Run(Initial(core), events))
  {
    EachHandledOnce(core, events);
    if |events| > 0 {
      var n := |events| - 1;
      RunKeeps(core, events[..n]);
      MatchedGetsOwnResult(core, events[..n]);
      NextCounted(Run(Initial(core), events[..n]), events[n]);
      NextKeeps(Run(Initial(core), events[..n]), events[n]);
    }
  }

  /** Over every run raft can produce: a normal command told stale by findCB or by an empty entry is
      never applied, before or after. */
  lemma StaleNeverApplied(core: Core, events: seq<Event>, i: nat)
    requires EnvRun(Initial(core), events) && i < |Run(Initial(core), events).handled|
    requires Run(Initial(core), events).handled[i].reply.Stale?
    ensures var s := Run(Initial(core), events);
            forall j :: 0 <= j < |s.applied| ==> !Carries(s.applied[j], s.handled[i].uuid)
  {
    RunKeeps(core, events);
    StaleMeans(Run(Initial(core), events), i);
  }

  lemma StaleMeans(s: State, i: nat)
    requires Fifo(s) && StaleInv(s) && i < |s.handled| && s.handled[i].reply.Stale?
    ensures forall j :: 0 <= j < |s.applied| ==> !Carries(s.applied[j], s.handled[i].uuid)
  {
    assert NeverApplied(s, i);
    forall j | 0 <= j < |s.applied|
      ensures !Carries(s.applied[j], s.handled[i].uuid)
    {
      assert !EntryOf(s, i, j);
    }
  }

  /** Conversely, a command whose entry was applied has been answered with the result of that very
      entry, unless a registration or the removal of the cell answered it first. */
  lemma AppliedIsAnswered(core: Core, events: seq<Event>, i: nat, j: nat)
    requires EnvRun(Initial(core), events)
    requires i < |Run(Initial(core), events).proposed| && j < |Run(Initial(core), events).applied|
    requires EntryOf(Run(Initial(core), events), i, j)
    ensures var s := Run(Initial(core), events);
            i < |s.handled| && (s.handled[i].reply == Done(j) || GivenUp(s.handled[i]))
  {
    RunKeeps(core, events);
    MatchedGetsOwnResult(core, events);
    EntryMeans(Run(Initial(core), events), i, j);
  }

  lemma EntryMeans(s: State, i: nat, j: nat)
    requires Fifo(s) && StaleInv(s) && Own(s) && Env(s) && i < |s.proposed| && j < |s.applied| && EntryOf(s, i, j)
    ensures i < |s.handled| && (s.handled[i].reply == Done(j) || GivenUp(s.handled[i]))
  {
    assert !NeverApplied(s, i);
    if s.handled[i].reply.Done? {
      var p := s.handled[i].reply.pos;
      assert OwnResult(s.handled[i], s.applied);
      assert EntryOf(s, i, p);
    }
  }

  // ---- which commands stay without an answer ----

  /** A normal command that is matched gets no answer exactly when its request passes the epoch check
      and is a rejected split, a compaction at or below the first index, or a request with no executor. */
  lemma SilentIff(core: Core, e: Entry)
    requires IsNormal(e)
    ensures ApplyEntry(core, e).resp.None? <==>
            CheckEpoch(core.cell, e.payload.req) &&
            match e.payload.req.body
            case Write(_) => false
            case ChangePeer(_, _) => false
            case Split(raw, _, ids) => |raw| > 0 && !SplitAccepted(core.cell, raw[1..], ids)
            case RaftLogGC(index, _) => index <= core.apply.trunc + 1
            case TransferLeader => true
            case OtherAdmin => true
  {
  }

  // ---- replicas that apply the same entries agree ----

  predicate Quiet(events: seq<Event>)
  {
    forall i :: 0 <= i < |events| ==> !events[i].Register? && !events[i].Destroy?
  }

  /** The committed entries of a run, however they are cut into batches. */
  function Commits(events: seq<Event>): seq<Entry>
  {
    if |events| == 0 then []
    else
      var n := |events| - 1;
      Commits(events[..n]) + if events[n].Commit? then [events[n].entry] else []
  }

  /** A delegate that has not removed itself is the replay of the entries committed to it. */
  lemma {:induction false} RunIsReplay(s: State, events: seq<Event>)
    requires s.live && !s.removed && Quiet(events)
    requires !Run(s, events).fatal && !Run(s, events).removed
    ensures Run(s, events).live && Run(s, events).core == Replay(s.core, Commits(events))
  {
    if |events| > 0 {
      var n := |events| - 1;
      var t := Run(s, events[..n]);
      assert Quiet(events[..n]);
      assert !t.fatal && !t.removed;
      RunIsReplay(s, events[..n]);
      if events[n].Commit? {
        var e := events[n].entry;
        assert Commits(events)[..|Commits(events[..n])|] == Commits(events[..n]);
        assert Run(s, events).core == ApplyEntry(t.core, e).core;
      } else {
        assert Commits(events) == Commits(events[..n]);
      }
    }
  }

  /** Two delegates that start with equal state and are given the same committed entries, in any batches
      and with any proposals around them, end with equal state unless one removes itself. */
  lemma SameEntriesSameState(a: State, b: State, mine: seq<Event>, theirs: seq<Event>)
    requires a.live && b.live && !a.removed && !b.removed && a.core == b.core && Quiet(mine) && Quiet(theirs)
    requires Commits(mine) == Commits(theirs)
    requires !Run(a, mine).fatal && !Run(b, theirs).fatal && !Run(a, mine).removed && !Run(b, theirs).removed
    ensures Run(a, mine).core == Run(b, theirs).core
  {
    RunIsReplay(a, mine);
    RunIsReplay(b, theirs);
  }

  // ---- change-peer commands ----

  predicate IsChange(e: Entry)
  {
    !e.payload.Empty? && e.payload.req.body.ChangePeer?
  }

  /** The delegate stays the same one and alive. */
  predicate Steady(s: State, events: seq<Event>)
  {
    s.live && !s.removed && Quiet(events) && !Run(s, events).fatal && !Run(s, events).removed
  }

  lemma SteadyPrefix(s: State, events: seq<Event>)
    requires |events| > 0 && Steady(s, events)
    ensures Steady(s, events[..|events| - 1]) && Run(s, events[..|events| - 1]).live
  {
    var n := |events| - 1;
    assert !events[n].Register? && !events[n].Destroy?;
    assert Steady(s, events[..n]);
    RunIsReplay(s, events[..n]);
  }

  /** What turns a waiting change-peer command away: another such entry, or a newer proposal. */
  predicate Interrupts(ev: Event)
  {
    (ev.Commit? && IsChange(ev.entry)) || (ev.Propose? && ev.conf)
  }

  predicate NoneInterrupts(events: seq<Event>)
  {
    forall i :: 0 <= i < |events| ==> !Interrupts(events[i])
  }

  /** No change-peer entry with this UUID among the events. */
  predicate NoneOwn(events: seq<Event>, uuid: nat)
  {
    forall i :: 0 <= i < |events| && events[i].Commit? && IsChange(events[i].entry) ==> events[i].entry.payload.req.uuid != uuid
  }

  /** The command that waited in s was told stale. */
  predicate ToldOff(s: State, t: State)
  {
    var n := |s.changeReplies|;
    |t.changeReplies| > n && (t.changeReplies[n].reply.Stale? || t.changeReplies[n].reply.Cleared?)
  }

  predicate Undisturbed(s: State, t: State)
  {
    t.change == s.change && t.changeReplies == s.changeReplies
  }

  lemma QuietStep(s: State, u: State, ev: Event)
    requires Undisturbed(s, u) && !Interrupts(ev) && !ev.Register? && !ev.Destroy? && u.live && !u.removed
    ensures Undisturbed(s, Next(u, ev))
  {
  }

  lemma ToldStays(s: State, u: State, ev: Event)
    requires ToldOff(s, u)
    ensures ToldOff(s, Next(u, ev))
  {
  }

  lemma InterruptTells(s: State, u: State, ev: Event)
    requires Undisturbed(s, u) && s.change.Waiting? && Interrupts(ev) && NoneOwn([ev], s.change.cmd.uuid)
    requires u.live && !u.removed && !u.fatal && !Next(u, ev).fatal
    ensures ToldOff(s, Next(u, ev))
  {
    assert ev == [ev][0];
  }

  lemma OwnDecides(s: State, u: State, e: Entry)
    requires Undisturbed(s, u) && s.change.Waiting? && IsChange(e) && e.payload.req.uuid == s.change.cmd.uuid
    requires u.live && !u.removed && !u.fatal
    ensures !ToldOff(s, Next(u, Commit(e)))
  {
  }

  lemma {:induction false} StillWaiting(s: State, events: seq<Event>)
    requires Steady(s, events) && NoneInterrupts(events)
    ensures Undisturbed(s, Run(s, events))
  {
    if |events| > 0 {
      var n := |events| - 1;
      SteadyPrefix(s, events);
      StillWaiting(s, events[..n]);
      QuietStep(s, Run(s, events[..n]), events[n]);
    }
  }

  lemma {:induction false} InterruptedIsTold(s: State, events: seq<Event>)
    requires Steady(s, events) && s.change.Waiting? && NoneOwn(events, s.change.cmd.uuid) && !NoneInterrupts(events)
    ensures ToldOff(s, Run(s, events))
  {
    var n := |events| - 1;
    var u := Run(s, events[..n]);
    SteadyPrefix(s, events);
    if NoneInterrupts(events[..n]) {
      StillWaiting(s, events[..n]);
      assert Interrupts(events[n]);
      InterruptTells(s, u, events[n]);
    } else {
      assert NoneOwn(events[..n], s.change.cmd.uuid);
      InterruptedIsTold(s, events[..n]);
      ToldStays(s, u, events[n]);
    }
  }

  /** The stretch of a run from a waiting change-peer command up to its own entry. */
  predicate UpToOwn(s: State, events: seq<Event>, own: Entry)
  {
    && |events| > 0 && Steady(s, events) && s.change.Waiting?
    && events[|events| - 1] == Commit(own) && IsChange(own) && own.payload.req.uuid == s.change.cmd.uuid
    && NoneOwn(events[..|events| - 1], s.change.cmd.uuid)
  }

  /** A waiting change-peer command is told stale if and only if another change-peer entry is applied or
      another change-peer command is proposed before its own entry. */
  lemma ChangeToldStaleIff(s: State, events: seq<Event>, own: Entry)
    requires UpToOwn(s, events, own)
    ensures ToldOff(s, Run(s, events)) <==> !NoneInterrupts(events[..|events| - 1])
  {
    var m := |events| - 1;
    var u := Run(s, events[..m]);
    SteadyPrefix(s, events);
    if NoneInterrupts(events[..m]) {
      StillWaiting(s, events[..m]);
      OwnDecides(s, u, own);
    } else {
      InterruptedIsTold(s, events[..m]);
      ToldStays(s, u, Commit(own));
    }
  }

  /** The promise for normal commands fails for change-peer commands. One that was stamped with the membership
      version at its proposal is told stale and executed all the same if and only if it was interrupted
      but none of the membership changes applied in between was executed. */
  lemma ToldStaleYetExecutedIff(s: State, events: seq<Event>, own: Entry)
    requires UpToOwn(s, events, own) && own.payload.req.epoch.confVer == s.core.cell.epoch.confVer
    ensures var before := events[..|events| - 1];
            ToldOff(s, Run(s, events)) && ChangesAt(Run(s, before).core, own) <==>
            !NoneInterrupts(before) && !ChangeAmong(s.core, Commits(before))
  {
    var before := events[..|events| - 1];
    ChangeToldStaleIff(s, events, own);
    SteadyPrefix(s, events);
    RunIsReplay(s, before);
    ChangeRunsIffFirst(s.core, Commits(before), own);
  }

  function ExampleCore(): Core
  {
    var cell := Cell(1, [], [], Epoch(1, 1), [Peer(11, 1)]);
    Core(cell, cell, Apply(6, 5, 5), 6, [], [])
  }

  /** A committed change of term 6, stamped before the last executed one, is still to be applied when the
      leader of term 7 proposes another. */
  function ExampleLog(): seq<Entry>
  {
    var older := Request(1, Epoch(0, 1), ChangePeer(true, Peer(12, 2)));
    var own := Request(2, Epoch(1, 1), ChangePeer(true, Peer(13, 3)));
    [Entry(7, 6, ConfChange(older)), Entry(8, 7, Empty), Entry(9, 7, ConfChange(own))]
  }

  function Proposed(core: Core, peerId: nat, c: Cmd): State
  {
    Next(Next(Initial(core), Register(core, c.term, peerId)), Propose(c, true))
  }

  lemma ProposedIs(core: Core, peerId: nat, c: Cmd)
    ensures var s := Proposed(core, peerId, c);
            && s.live && !s.removed && !s.fatal && s.core == core && s.change == Waiting(c) && s.changeReplies == []
            && s.peerId == peerId && s.pending == []
  {
    var u := Next(Initial(core), Register(core, c.term, peerId));
    assert u == RegisterStep(Initial(core), core, c.term, peerId);
  }

  /** A log that raft produces, with the empty entry of the new leader, on which this happens. */
  lemma ToldStaleYetExecutedOnce()
    ensures var log := ExampleLog(); var s := Proposed(ExampleCore(), 11, Cmd(2, 7));
            && TermsRise(ExampleCore().appliedTerm, log) && TermsBeginEmpty(ExampleCore().appliedTerm, log)
            && Consecutive(ExampleCore().apply.applied, log)
            && var t := CommitAll(s, log);
               !t.fatal && ToldOff(s, t) && t.core.cell.peers == [Peer(11, 1), Peer(13, 3)]
  {
    var log := ExampleLog();
    var s := Proposed(ExampleCore(), 11, Cmd(2, 7));
    ProposedIs(ExampleCore(), 11, Cmd(2, 7));
    ExampleOlder(s);
    var s1 := Next(s, Commit(log[0]));
    ExampleEmpty(s1);
    var s2 := Next(s1, Commit(log[1]));
    ExampleOwn(s2);
    ToldStays(s, s1, Commit(log[1]));
    ToldStays(s, s2, Commit(log[2]));
    ThreeCommits(s, log);
  }

  lemma ExampleOlder(s: State)
    requires s.live && !s.removed && !s.fatal && s.core == ExampleCore() && s.change == Waiting(Cmd(2, 7))
    ensures var t := Next(s, Commit(ExampleLog()[0]));
            t.live && !t.removed && !t.fatal && t.core == s.core.(apply := Apply(7, 5, 5)) && ToldOff(s, t)
  {
  }

  lemma ExampleEmpty(s: State)
    requires s.live && !s.removed && !s.fatal && s.core == ExampleCore().(apply := Apply(7, 5, 5))
    ensures var t := Next(s, Commit(ExampleLog()[1]));
            t.live && !t.removed && !t.fatal && t.core == s.core.(apply := Apply(8, 5, 5), appliedTerm := 7)
  {
  }

  lemma ExampleOwn(s: State)
    requires s.live && !s.removed && !s.fatal && s.core == ExampleCore().(apply := Apply(8, 5, 5), appliedTerm := 7)
    ensures var t := Next(s, Commit(ExampleLog()[2])); !t.fatal && t.core.cell.peers == [Peer(11, 1), Peer(13, 3)]
  {
  }

  lemma ThreeCommits(s: State, log: seq<Entry>)
    requires |log| == 3
    ensures CommitAll(s, log) == Next(Next(Next(s, Commit(log[0])), Commit(log[1])), Commit(log[2]))
  {
    assert CommitAll(s, log[..0]) == s && log[..3] == log;
    CommitAllNext(s, log, 0);
    CommitAllNext(s, log, 1);
    CommitAllNext(s, log, 2);
  }

  // ---- registrations ----

  /** The slot is empty exactly as long as no change-peer command was proposed to this delegate. */
  predicate SlotMarked(s: State)
  {
    s.live ==> s.mark <= |s.changes| && (s.change.NoChange? <==> |s.changes| == s.mark)
  }

  lemma NextMarked(s: State, ev: Event)
    requires SlotMarked(s)
    ensures SlotMarked(Next(s, ev))
  {
  }

  lemma {:induction false} RunMarked(core: Core, events: seq<Event>)
    ensures SlotMarked(Run(Initial(core), events))
  {
    if |events| > 0 {
      var n := |events| - 1;
      RunMarked(core, events[..n]);
      NextMarked(Run(Initial(core), events[..n]), events[n]);
    }
  }

  /** Over every run: replacing a delegate of the same peer kills the process if and only if some change-peer
      command was proposed since that delegate was registered and all of them have been answered. */
  lemma RegistrationFatalIff(core: Core, events: seq<Event>, start: Core, term: nat)
    requires var s := Run(Initial(core), events); s.live && !s.fatal
    ensures var s := Run(Initial(core), events);
            Next(s, Register(start, term, s.peerId)).fatal <==> |s.changes| > s.mark && |s.changeReplies| == |s.changes|
  {
    RunMarked(core, events);
    EachHandledOnce(core, events);
  }

  /** Such a run: one change-peer command, answered with its own result, and then a registration. */
  lemma RegistrationFatalOnce()
    ensures var own := ExampleLog()[2].(index := 7, term := 7);
            var s := Next(Proposed(ExampleCore(), 11, Cmd(2, 7)), Commit(own));
            && !s.fatal && |s.changeReplies| == 1 && s.changeReplies[0].reply.Done?
            && Next(s, Register(s.core, 8, 11)).fatal
  {
    ProposedIs(ExampleCore(), 11, Cmd(2, 7));
    var own := ExampleLog()[2].(index := 7, term := 7);
    var s := Next(Proposed(ExampleCore(), 11, Cmd(2, 7)), Commit(own));
    assert s.change == Answered;
  }

  /** A change-peer command that nothing interrupts is answered with the result of its own entry, or goes on
      waiting if the entry built no response. */
  lemma ChangeAnsweredByOwn(s: State, events: seq<Event>, own: Entry)
    requires UpToOwn(s, events, own) && NoneInterrupts(events[..|events| - 1])
    ensures var t := Run(s, events); var p := |t.applied| - 1;
            && p >= 0 && t.applied[p].entry == own
            && if t.applied[p].resp.Some? then
                 t.changeReplies == s.changeReplies + [Handled(s.change.cmd.uuid, own.term, Done(p))] && !t.change.Waiting?
               else Undisturbed(s, t)
  {
    var m := |events| - 1;
    SteadyPrefix(s, events);
    StillWaiting(s, events[..m]);
  }

  // ---- removal ----

  /** After the delegate is gone every command has been handled, those that still waited with cell-not-found. */
  lemma GoneAnswersAll(u: State, t: State, ev: Event)
    requires Fifo(u) && u.live && !u.fatal && t == Next(u, ev) && !t.live
    ensures |t.handled| == |t.proposed| && |t.changeReplies| == |t.changes|
    ensures u.handled <= t.handled && u.changeReplies <= t.changeReplies
    ensures forall i :: |u.handled| <= i < |t.handled| ==> t.handled[i] == Handled(u.proposed[i].uuid, u.proposed[i].term, Removed)
    ensures forall i :: |u.changeReplies| <= i < |t.changeReplies| ==>
              t.changeReplies[i] == Handled(u.changes[i].uuid, u.changes[i].term, Removed)
  {
    NextFifo(u, ev);
    assert InSlot(u.change) == u.changes[|u.changeReplies|..];
  }

  /** Change-peer entries name the delegate's own peer consistently: by its id exactly if by its store. */
  predicate NamesOwn(entries: seq<Entry>, own: Peer)
  {
    forall i :: 0 <= i < |entries| && IsChange(entries[i]) ==>
                  var p := entries[i].payload.req.body.peer; p.id == own.id <==> p.storeId == own.storeId
  }

  lemma EntryKeepsOwn(core: Core, e: Entry, own: Peer)
    requires own in core.cell.peers && NamesOwn([e], own)
    ensures !e.payload.Empty? && RemovesSelf(core.cell, e.payload.req, own.id) <==> own !in ApplyEntry(core, e).core.cell.peers
  {
    assert [e][0] == e;
    var k :| 0 <= k < |core.cell.peers| && core.cell.peers[k] == own;
    if IsChange(e) {
      WithoutStoreIs(core.cell.peers, e.payload.req.body.peer.storeId);
      assert e.payload.req.body.peer.storeId == own.storeId ==> OnStore(core.cell.peers, own.storeId);
    }
  }

  /** While a batch is applied the delegate is marked for removal exactly once its own peer has left the cell. */
  lemma {:induction false} MarkedIffGone(s: State, entries: seq<Entry>, own: Peer)
    requires s.live && !s.removed && own.id == s.peerId && own in s.core.cell.peers && NamesOwn(entries, own)
    requires !CommitAll(s, entries).fatal
    ensures var t := CommitAll(s, entries);
            t.live && t.peerId == s.peerId && (t.removed <==> own !in t.core.cell.peers)
  {
    if |entries| > 0 {
      var n := |entries| - 1;
      assert NamesOwn(entries[..n], own) && NamesOwn([entries[n]], own);
      MarkedIffGone(s, entries[..n], own);
      var u := CommitAll(s, entries[..n]);
      if !u.removed {
        EntryKeepsOwn(u.core, entries[n], own);
      }
    }
  }

  lemma {:induction false} CommitAllFifo(s: State, entries: seq<Entry>)
    requires Fifo(s)
    ensures Fifo(CommitAll(s, entries))
  {
    if |entries| > 0 {
      CommitAllFifo(s, entries[..|entries| - 1]);
      NextFifo(CommitAll(s, entries[..|entries| - 1]), Commit(entries[|entries| - 1]));
    }
  }

  /** A batch of committed entries ends the delegate if and only if it took the delegate's own peer out of the
      cell. Then every command has been handled: what the entries did not decide is told that the cell is
      gone. Otherwise nothing happens beyond the entries. */
  lemma BatchEndsDelegateIff(s: State, term: nat, entries: seq<Entry>, own: Peer)
    requires Fifo(s) && s.live && !s.removed && !s.fatal
    requires own.id == s.peerId && own in s.core.cell.peers && NamesOwn(entries, own)
    requires !CommitAll(Next(s, Begin(term)), entries).fatal
    ensures var u := CommitAll(Next(s, Begin(term)), entries); var t := Next(u, End);
            && (!t.live <==> own !in t.core.cell.peers)
            && (t.live ==> t == u)
            && (!t.live ==>
                  && |t.handled| == |t.proposed| && |t.changeReplies| == |t.changes|
                  && u.handled <= t.handled && u.changeReplies <= t.changeReplies
                  && (forall i :: |u.handled| <= i < |t.handled| ==> t.handled[i].reply == Removed)
                  && (forall i :: |u.changeReplies| <= i < |t.changeReplies| ==> t.changeReplies[i].reply == Removed))
  {
    var b := Next(s, Begin(term));
    var u := CommitAll(b, entries);
    MarkedIffGone(b, entries, own);
    CommitAllFifo(b, entries);
    if u.removed {
      GoneAnswersAll(u, Next(u, End), End);
    }
  }

  // ---- who is answered how ----

  /** Without a committed entry, normal commands are answered by a registration, as stale with its term, or with
      cell-not-found and their own term. */
  lemma AnswersByEvent(s: State, ev: Event)
    requires Fifo(s) && !s.fatal && !Next(s, ev).fatal && !ev.Commit?
    ensures var t := Next(s, ev);
            && s.handled <= t.handled
            && forall i :: |s.handled| <= i < |t.handled| ==>
                 t.handled[i] == if ev.Register? then Handled(t.proposed[i].uuid, ev.term, Cleared)
                                 else Handled(t.proposed[i].uuid, t.proposed[i].term, Removed)
  {
  }

  /** Change-peer commands likewise, and as stale with the delegate's term by a newer one. */
  lemma ChangeAnswersByEvent(s: State, ev: Event)
    requires Fifo(s) && !s.fatal && !Next(s, ev).fatal && !ev.Commit?
    ensures var t := Next(s, ev);
            && s.changeReplies <= t.changeReplies
            && forall i :: |s.changeReplies| <= i < |t.changeReplies| ==>
                 t.changeReplies[i] == if ev.Register? then Handled(t.changes[i].uuid, ev.term, Cleared)
                                       else if ev.Propose? && s.live then Handled(t.changes[i].uuid, s.term, Cleared)
                                       else Handled(t.changes[i].uuid, t.changes[i].term, Removed)
  {
    assert InSlot(s.change) == s.changes[|s.changeReplies|..];
  }

  /** A committed entry answers normal commands as stale with the delegate's term, or with its own result. */
  lemma AnswersByEntry(s: State, e: Entry)
    requires Fifo(s) && !s.fatal && !Next(s, Commit(e)).fatal
    ensures var t := Next(s, Commit(e));
            && s.handled <= t.handled
            && forall i :: |s.handled| <= i < |t.handled| ==>
                 t.handled[i].term == if t.handled[i].reply.Done? then e.term else s.term
    ensures var t := Next(s, Commit(e));
            forall i :: |s.handled| <= i < |t.handled| ==> t.handled[i].reply in {Stale(|s.applied|), Done(|s.applied|)}
  {
  }

  /** A registration that is not fatal installs the new delegate with nothing waiting; the term is that of the
      last batch, command entry or registration. */
  lemma InstallsAndTerms(s: State, ev: Event)
    requires !s.fatal && !Next(s, ev).fatal
    ensures var t := Next(s, ev);
            && (ev.Register? ==> t.live && !t.removed && t.core == ev.core && t.peerId == ev.peerId && t.term == ev.term
                                 && t.pending == [] && t.change == NoChange)
            && (ev.Begin? && s.live ==> t == s.(term := ev.term))
            && (ev.Commit? && s.live && !s.removed ==>
                  t.core == ApplyEntry(s.core, ev.entry).core
                  && t.term == if ev.entry.payload.Empty? then s.term else ev.entry.term)
            && (ev.Propose? || ev.Destroy? || ev.End? ==> t.term == s.term && t.core == s.core)
  {
  }

  /** An entry kills the process if and only if it does not follow the applied one, is empty with term 0, or is
      a conf change whose request splits or compacts. */
  lemma CommitFatalIff(s: State, e: Entry)
    requires !s.fatal && s.live && !s.removed
    ensures Next(s, Commit(e)).fatal <==>
            || e.index != s.core.apply.applied + 1
            || (e.payload.Empty? && e.term == 0)
            || (e.payload.ConfChange? && !e.payload.req.body.ChangePeer? && ApplyEntry(s.core, e).result.Some?)
  {
  }
}
