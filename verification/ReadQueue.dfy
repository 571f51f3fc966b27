/** Linearizable reads of a cell leader: the queue of pending reads and its ready count. */
module ReadQueue {
  import opened ApplyStates

  /** An executed read, with the applied term and the current term at that moment, or a refused one. */
  datatype Answer = Ran(uuid: nat, appliedTerm: nat, term: nat) | Stale(uuid: nat)

  /** queue: reads not yet answered, oldest first; ready: how many of them raft has confirmed while the
      apply side was still behind. fatal: a uuid mismatch or a pop from the empty queue stopped the store. */
  datatype State = State(queue: seq<nat>, ready: nat, appliedTerm: nat, term: nat, answers: seq<Answer>, fatal: bool)

  datatype Event =
    | Push(uuid: nat)                                        // execReadIndex accepted a read
    | Ready(confirmed: seq<nat>, stepDown: bool, term: nat)  // one raft Ready: its ReadStates, its SoftState, the term
    | PostApply(appliedTerm: nat, term: nat)                 // an apply result arrives

  predicate CanRead(s: State)
  {
    s.appliedTerm == s.term
  }

  /** One read is popped and executed. */
  function RunHead(s: State): State
  {
    if s.queue == [] then s.(fatal := true)
    else s.(queue := s.queue[1..], answers := s.answers + [Ran(s.queue[0], s.appliedTerm, s.term)])
  }

  /** Pops and executes one read per confirmation, checking the uuid. */
  function RunConfirmed(s: State, confirmed: seq<nat>): State
  {
    if |confirmed| == 0 then s
    else
      var n := |confirmed| - 1;
      var t := RunConfirmed(s, confirmed[..n]);
      if t.fatal || t.queue == [] || t.queue[0] != confirmed[n] then t.(fatal := true) else RunHead(t)
  }

  function RunFirst(s: State, n: nat): State
  {
    if n == 0 then s
    else
      var t := RunFirst(s, n - 1);
      if t.fatal then t else RunHead(t)
  }

  function RefuseFirst(s: State, n: nat): State
    requires n <= |s.queue|
  {
    s.(queue := s.queue[n..], answers := s.answers + seq(n, i requires 0 <= i < n => Stale(s.queue[i])))
  }

  function Next(s: State, e: Event): State
  {
    match e
    case Push(uuid) => s.(queue := s.queue + [uuid])
    case Ready(confirmed, stepDown, term) =>
      var t := s.(term := term);
      var u := if CanRead(t) then RunConfirmed(t, confirmed) else t.(ready := t.ready + |confirmed|);
      if stepDown && !u.fatal then RefuseFirst(u, |u.queue|).(ready := 0) else u
    case PostApply(appliedTerm, term) =>
      var t := s.(appliedTerm := appliedTerm, term := term);
      if t.ready > 0 && CanRead(t) then
        var u := RunFirst(t, t.ready);
        if u.fatal then u else u.(ready := 0)
      else t
  }

  function Initial(term: nat): State
  {
    State([], 0, INIT_TERM, term, [], false)
  }

  class PeerReads {
    var queue: seq<nat>
    var ready: nat
    var appliedTerm: nat
    var term: nat
    var answers: seq<Answer>
    var fatal: bool

    function View(): State
      reads this
    {
      State(queue, ready, appliedTerm, term, answers, fatal)
    }

    constructor (term: nat)
      ensures View() == Initial(term)
    {
      queue, ready, appliedTerm, this.term, answers, fatal := [], 0, INIT_TERM, term, [], false;
    }

    method PushRead(uuid: nat)
      modifies this
      ensures View() == Next(old(View()), Push(uuid))
    {
      queue := queue + [uuid];
    }

    /** One pop per confirmation, checking the uuid. */
    method RunReads(confirmed: seq<nat>)
      requires !fatal
      modifies this
      ensures View() == RunConfirmed(old(View()), confirmed)
    {
      ghost var t := View();
      for i := 0 to |confirmed|
        invariant !fatal && View() == RunConfirmed(t, confirmed[..i])
      {
        assert confirmed[..i + 1][..i] == confirmed[..i];
        if queue == [] || queue[0] != confirmed[i] {
          fatal := true;
          FatalStays(t, confirmed, i + 1);
          assert confirmed[..|confirmed|] == confirmed;
          return;
        }
        answers := answers + [Ran(queue[0], appliedTerm, term)];
        queue := queue[1..];
      }
      assert confirmed[..|confirmed|] == confirmed;
    }

    /** A leader that steps down refuses every waiting read. */
    method RefuseAll()
      modifies this
      ensures View() == RefuseFirst(old(View()), |old(queue)|).(ready := 0)
    {
      ghost var u := View();
      var n := |queue|;
      for i := 0 to n
        invariant n == |u.queue| && View() == RefuseFirst(u, i)
      {
        answers := answers + [Stale(queue[0])];
        queue := queue[1..];
        assert u.answers + seq(i + 1, k requires 0 <= k < i + 1 => Stale(u.queue[k])) == answers;
      }
      ready := 0;
    }

    method ApplyReads(confirmed: seq<nat>, stepDown: bool, now: nat)
      requires !fatal
      modifies this
      ensures View() == Next(old(View()), Ready(confirmed, stepDown, now))
    {
      term := now;
      if appliedTerm == term {
        RunReads(confirmed);
      } else {
        ghost var t := View();
        for i := 0 to |confirmed|
          invariant View() == t.(ready := t.ready + i)
        {
          ready := ready + 1;
        }
      }
      if stepDown && !fatal {
        RefuseAll();
      }
    }

    method ApplyDone(applied: nat, now: nat)
      requires !fatal
      modifies this
      ensures View() == Next(old(View()), PostApply(applied, now))
    {
      appliedTerm, term := applied, now;
      ghost var t := View();
      if ready > 0 && appliedTerm == term {
        for i := 0 to ready
          invariant !fatal && ready == t.ready && View() == RunFirst(t, i)
        {
          if queue == [] {
            fatal := true;
            FatalStaysFirst(t, i + 1, ready);
            return;
          }
          answers := answers + [Ran(queue[0], appliedTerm, term)];
          queue := queue[1..];
        }
        ready := 0;
      }
    }
  }

  lemma {:induction false} FatalStays(s: State, confirmed: seq<nat>, i: nat)
    requires i <= |confirmed| && RunConfirmed(s, confirmed[..i]).fatal
    ensures RunConfirmed(s, confirmed) == RunConfirmed(s, confirmed[..i])
    decreases |confirmed|
  {
    if i < |confirmed| {
      var n := |confirmed| - 1;
      assert confirmed[..n][..i] == confirmed[..i];
      FatalStays(s, confirmed[..n], i);
    } else {
      assert confirmed[..i] == confirmed;
    }
  }

  lemma {:induction false} FatalStaysFirst(s: State, i: nat, n: nat)
    requires i <= n && RunFirst(s, i).fatal
    ensures RunFirst(s, n) == RunFirst(s, i)
    decreases n
  {
    if i < n {
      FatalStaysFirst(s, i, n - 1);
    }
  }

  /** What raft promises: confirmations come in request order and only for unconfirmed reads, terms never
      go back, and the applied term does not run ahead of the current one. */
  predicate Possible(s: State, e: Event)
  {
    match e
    case Push(_) => true
    case Ready(confirmed, _, term) => s.term <= term && s.ready <= |s.queue| && confirmed <= s.queue[s.ready..]
    case PostApply(appliedTerm, term) => s.term <= term && s.appliedTerm <= appliedTerm <= term
  }

  /** The uuids answered, in the order of the answers. */
  function Answered(answers: seq<Answer>): (r: seq<nat>)
    ensures |r| == |answers|
    ensures forall i :: 0 <= i < |r| ==> r[i] == answers[i].uuid
  {
    seq(|answers|, i requires 0 <= i < |answers| => answers[i].uuid)
  }

  function Pushed(events: seq<Event>): seq<nat>
  {
    if |events| == 0 then []
    else
      var n := |events| - 1;
      Pushed(events[..n]) + (if events[n].Push? then [events[n].uuid] else [])
  }

  predicate Inv(s: State, pushed: seq<nat>)
  {
    && !s.fatal
    && s.ready <= |s.queue|
    && s.appliedTerm <= s.term
    && (s.ready > 0 ==> s.appliedTerm < s.term)
    && Answered(s.answers) + s.queue == pushed
    && forall i :: 0 <= i < |s.answers| && s.answers[i].Ran? ==> s.answers[i].appliedTerm == s.answers[i].term
  }

  /** n reads are executed while the terms agree. */
  lemma {:induction false} RunFirstKeeps(s: State, n: nat, pushed: seq<nat>)
    requires Inv(s.(ready := 0), pushed) && n <= |s.queue| && CanRead(s)
    ensures var t := RunFirst(s, n);
            Inv(t.(ready := 0), pushed) && t.queue == s.queue[n..] && t == s.(queue := t.queue, answers := t.answers)
  {
    if n > 0 {
      RunFirstKeeps(s, n - 1, pushed);
      var t := RunFirst(s, n - 1);
      var u := RunHead(t);
      assert Answered(u.answers) == Answered(t.answers) + [t.queue[0]];
      assert t.queue == [t.queue[0]] + t.queue[1..];
    }
  }

  /** With the confirmations in request order the uuid check never fails. */
  lemma {:induction false} ConfirmedIsFirst(s: State, confirmed: seq<nat>)
    requires confirmed <= s.queue && !s.fatal
    ensures RunConfirmed(s, confirmed) == RunFirst(s, |confirmed|)
    ensures !RunFirst(s, |confirmed|).fatal && RunFirst(s, |confirmed|).queue == s.queue[|confirmed|..]
  {
    if |confirmed| > 0 {
      var n := |confirmed| - 1;
      ConfirmedIsFirst(s, confirmed[..n]);
      assert s.queue[n] == confirmed[n];
    }
  }

  lemma RefuseKeeps(s: State, pushed: seq<nat>)
    requires Inv(s.(ready := 0), pushed)
    ensures Inv(RefuseFirst(s, |s.queue|).(ready := 0), pushed)
  {
    var t := RefuseFirst(s, |s.queue|);
    assert Answered(t.answers) == Answered(s.answers) + s.queue;
    assert t.queue == [];
  }

  lemma NextKeeps(s: State, e: Event, pushed: seq<nat>)
    requires Inv(s, pushed) && Possible(s, e)
    ensures Inv(Next(s, e), pushed + if e.Push? then [e.uuid] else [])
  {
    match e {
      case Push(uuid) =>
        assert Answered(s.answers) + (s.queue + [uuid]) == pushed + [uuid];
      case Ready(confirmed, stepDown, term) =>
        var t := s.(term := term);
        if CanRead(t) {
          ConfirmedIsFirst(t, confirmed);
          RunFirstKeeps(t, |confirmed|, pushed);
          if stepDown { RefuseKeeps(RunConfirmed(t, confirmed), pushed); }
        } else if stepDown {
          RefuseKeeps(t.(ready := t.ready + |confirmed|), pushed);
        }
        assert pushed + [] == pushed;
      case PostApply(appliedTerm, term) =>
        var t := s.(appliedTerm := appliedTerm, term := term);
        if t.ready > 0 && CanRead(t) {
          RunFirstKeeps(t, t.ready, pushed);
        }
        assert pushed + [] == pushed;
    }
  }

  function Run(term: nat, events: seq<Event>): State
  {
    if |events| == 0 then Initial(term) else Next(Run(term, events[..|events| - 1]), events[|events| - 1])
  }

  /** Over every run the reads are answered in request order and once each, an executed read ran when the
      applied term was the current term, and the ready count stays between 0 and the queue length. */
  lemma {:induction false} ReadsInOrder(term: nat, events: seq<Event>)
    requires INIT_TERM <= term
    requires forall i :: 0 <= i < |events| ==> Possible(Run(term, events[..i]), events[i])
    ensures Inv(Run(term, events), Pushed(events))
  {
    if |events| > 0 {
      var n := |events| - 1;
      assert forall i :: 0 <= i <= n ==> events[..n][..i] == events[..i];
      ReadsInOrder(term, events[..n]);
      NextKeeps(Run(term, events[..n]), events[n], Pushed(events[..n]));
    }
  }

  /** The first n waiting reads, executed. */
  function Executed(s: State, n: nat): seq<Answer>
    requires n <= |s.queue|
  {
    seq(n, i requires 0 <= i < n => Ran(s.queue[i], s.appliedTerm, s.term))
  }

  lemma {:induction false} RunFirstAnswers(s: State, n: nat)
    requires n <= |s.queue| && !s.fatal
    ensures var t := RunFirst(s, n);
            t.answers == s.answers + Executed(s, n) && t.queue == s.queue[n..] && t == s.(queue := t.queue, answers := t.answers)
  {
    if n > 0 {
      RunFirstAnswers(s, n - 1);
      assert Executed(s, n) == Executed(s, n - 1) + [Ran(s.queue[n - 1], s.appliedTerm, s.term)];
    }
  }

  /** Confirmed reads run at once if the terms agree and are counted otherwise; a step-down refuses all that
      still wait. */
  predicate AnswersReady(s: State, t: State, confirmed: seq<nat>, stepDown: bool, term: nat)
  {
    var ran := if s.appliedTerm == term then |confirmed| else 0;
    && t.term == term && t.appliedTerm == s.appliedTerm && ran <= |s.queue|
    && if stepDown then
         && t.queue == [] && t.ready == 0 && |t.answers| == |s.answers| + |s.queue|
         && t.answers[..|s.answers| + ran] == s.answers + Executed(s.(term := term), ran)
         && forall i :: |s.answers| + ran <= i < |t.answers| ==> t.answers[i] == Stale(s.queue[i - |s.answers|])
       else
         && t.queue == s.queue[ran..] && t.answers == s.answers + Executed(s.(term := term), ran)
         && t.ready == s.ready + (|confirmed| - ran)
  }

  lemma ReadyAnswers(s: State, confirmed: seq<nat>, stepDown: bool, term: nat, pushed: seq<nat>)
    requires Inv(s, pushed) && Possible(s, Ready(confirmed, stepDown, term))
    ensures AnswersReady(s, Next(s, Ready(confirmed, stepDown, term)), confirmed, stepDown, term)
  {
    var now := s.(term := term);
    var u := if CanRead(now) then RunConfirmed(now, confirmed) else now.(ready := now.ready + |confirmed|);
    if CanRead(now) {
      ConfirmedIsFirst(now, confirmed);
      RunFirstAnswers(now, |confirmed|);
    } else {
      assert Executed(now, 0) == [] && s.queue[0..] == s.queue;
    }
    if stepDown {
      RefusedAll(u);
    }
  }

  lemma RefusedAll(u: State)
    ensures var t := RefuseFirst(u, |u.queue|);
            && t.queue == [] && |t.answers| == |u.answers| + |u.queue| && t.answers[..|u.answers|] == u.answers
            && forall i :: |u.answers| <= i < |t.answers| ==> t.answers[i] == Stale(u.queue[i - |u.answers|])
  {
  }

  /** Counted reads run as soon as an apply result brings the current term. */
  lemma ApplyAnswers(s: State, appliedTerm: nat, term: nat, pushed: seq<nat>)
    requires Inv(s, pushed) && Possible(s, PostApply(appliedTerm, term))
    ensures var t := Next(s, PostApply(appliedTerm, term)); var now := s.(appliedTerm := appliedTerm, term := term);
            if appliedTerm == term then t.ready == 0 && t.queue == s.queue[s.ready..] && t.answers == s.answers + Executed(now, s.ready)
            else t == now
  {
    var now := s.(appliedTerm := appliedTerm, term := term);
    if now.ready > 0 && CanRead(now) {
      RunFirstAnswers(now, now.ready);
    } else {
      assert s.queue[0..] == s.queue;
    }
  }

  function ConfirmedIn(events: seq<Event>): nat
  {
    if |events| == 0 then 0
    else
      var n := |events| - 1;
      ConfirmedIn(events[..n]) + if events[n].Ready? then |events[n].confirmed| else 0
  }

  /** The executed reads and the counted ones are the confirmed ones, and only a lagging applied term lets any
      be counted. */
  predicate AllRun(s: State, confirmed: nat)
  {
    && |s.answers| + s.ready == confirmed
    && (forall i :: 0 <= i < |s.answers| ==> s.answers[i].Ran?)
    && (s.ready > 0 ==> s.appliedTerm < s.term)
  }

  lemma AllRunNext(s: State, e: Event, pushed: seq<nat>, confirmed: nat)
    requires Inv(s, pushed) && Possible(s, e) && AllRun(s, confirmed) && (e.Ready? ==> !e.stepDown)
    requires Inv(Next(s, e), pushed + if e.Push? then [e.uuid] else [])
    ensures AllRun(Next(s, e), confirmed + if e.Ready? then |e.confirmed| else 0)
  {
    match e {
      case Push(_) =>
      case Ready(confirmed, stepDown, now) => ReadyAnswers(s, confirmed, stepDown, now, pushed);
      case PostApply(applied, now) => ApplyAnswers(s, applied, now, pushed);
    }
  }

  /** While the peer leads, the reads executed are exactly the confirmed ones, save those counted because the
      applied term is still behind. */
  lemma {:induction false} ConfirmedReadsRun(term: nat, events: seq<Event>)
    requires INIT_TERM <= term
    requires forall i :: 0 <= i < |events| ==> Possible(Run(term, events[..i]), events[i])
    requires forall i :: 0 <= i < |events| && events[i].Ready? ==> !events[i].stepDown
    ensures AllRun(Run(term, events), ConfirmedIn(events))
  {
    if |events| > 0 {
      var n := |events| - 1;
      assert forall i :: 0 <= i <= n ==> events[..n][..i] == events[..i];
      assert forall i :: 0 <= i < n ==> events[..n][i] == events[i];
      ReadsInOrder(term, events[..n]);
      ConfirmedReadsRun(term, events[..n]);
      var s, pushed := Run(term, events[..n]), Pushed(events[..n]);
      NextKeeps(s, events[n], pushed);
      AllRunNext(s, events[n], pushed, ConfirmedIn(events[..n]));
    }
  }
}
