/** A replica's raft log: the engine, the raft side's view of it, the apply side and the delayed GC. */
module RaftLogs {
  import opened Cells
  import opened Words
  import opened ApplyStates

  /** compact: the index and term that the entry's command asks to compact to, if it is such a command. */
  datatype Entry = Entry(index: nat, term: nat, size: nat, compact: Option<(nat, nat)>)

  /** What the apply side posts for one entry. */
  datatype Result = Result(apply: Apply, gc: Option<GC>)

  /** Delete the indices in [start, end); start 0 means from the first key found. */
  datatype Job = Job(start: nat, end: nat)

  /** ps is the raft side's apply state, disk the apply side's, which is also the persisted one;
      results are the posted apply results that the raft side has not taken yet. */
  datatype State = State(
    engine: map<nat, Entry>, last: nat, lastTerm: nat, ps: Apply, disk: Apply, results: seq<Result>,
    ready: nat, lastCompact: nat, hint: nat, jobs: seq<Job>)

  datatype Step =
    | Append(entries: seq<Entry>)
    | Commit(upTo: nat, bytes: nat)
    | ApplyOne                                  // the apply side applies the next committed entry
    | PostApply
    | Snapshot(index: nat, term: nat)
    | RunGC(job: nat, seek: nat)                // seek: the first index found when the start is 0
    | Restart

  // ---- the steps ----

  function Written(engine: map<nat, Entry>, entries: seq<Entry>): map<nat, Entry>
  {
    if |entries| == 0 then engine
    else
      var n := |entries| - 1;
      Written(engine, entries[..n])[entries[n].index := entries[n]]
  }

  /** Without the indices in [from, upTo). */
  function Deleted(engine: map<nat, Entry>, from: nat, upTo: nat): (r: map<nat, Entry>)
  {
    map i | i in engine && !(from <= i < upTo) :: engine[i]
  }

  function AppendStep(s: State, entries: seq<Entry>): State
  {
    if |entries| == 0 then s
    else
      var e := entries[|entries| - 1];
      s.(engine := Deleted(Written(s.engine, entries), e.index + 1, s.last + 1), last := e.index, lastTerm := e.term)
  }

  /** What the command of an entry does to the apply state. */
  function Executed(a: Apply, e: Entry): (Apply, Option<GC>)
  {
    if e.compact.None? then (a, None)
    else
      match Compact(a, e.compact.value.0, e.compact.value.1)
      case NoNeed => (a, None)
      case Refused => (a, None)
      case Truncated(b, gc) => (b, Some(gc))
  }

  function ApplyStep(s: State): State
  {
    var i := s.disk.applied + 1;
    if i !in s.engine then s
    else
      var (a, gc) := Executed(s.disk, s.engine[i]);
      var b := a.(applied := i);
      s.(disk := b, results := s.results + [Result(b, gc)])
  }

  /** The product of the size hint is taken modulo 2^64. */
  function NewHint(hint: nat, remain: nat, total: nat): nat
    requires total > 0
  {
    hint * remain % TWO64 / total
  }

  /** Where a subtraction or the division would go wrong the hint is set to 0 here; HintArithmetic shows
      that this does not happen. */
  function PostApplyStep(s: State): State
  {
    if |s.results| == 0 then s
    else
      var r := s.results[0];
      var t := s.(ps := r.apply, results := s.results[1..]);
      if r.gc.None? then t
      else
        var total := s.ready - r.gc.value.firstIndex;
        var remain := s.ready - r.gc.value.index - 1;
        t.(hint := if total > 0 && remain >= 0 then NewHint(s.hint, remain, total) else 0,
        jobs := s.jobs + [Job(s.lastCompact, r.gc.value.index + 1)],
        lastCompact := r.gc.value.index + 1)
  }

  function SnapshotStep(s: State, index: nat, term: nat): State
  {
    var a := Apply(index, index, term);
    s.(engine := map[], last := index, lastTerm := term, ps := a, disk := a, ready := index, hint := 0)
  }

  function GCStart(j: Job, seek: nat): nat
  {
    if j.start == 0 then seek else j.start
  }

  function GCStep(s: State, k: nat, seek: nat): State
  {
    if k >= |s.jobs| then s
    else s.(engine := Deleted(s.engine, GCStart(s.jobs[k], seek), s.jobs[k].end), jobs := s.jobs[..k] + s.jobs[k + 1..])
  }

  /** initLastTerm; None is the error for a missing last entry. */
  function InitLastTerm(engine: map<nat, Entry>, last: nat, a: Apply): Option<nat>
  {
    if last == 0 then Some(0)
    else if last == INIT_INDEX then Some(INIT_TERM)
    else if last == a.trunc then Some(a.truncTerm)
    else if last < INIT_INDEX || last !in engine then None
    else Some(engine[last].term)
  }

  function RestartStep(s: State): State
  {
    var t := InitLastTerm(s.engine, s.last, s.disk);
    s.(ps := s.disk, results := [], lastTerm := if t.Some? then t.value else 0,
    ready := s.disk.applied, lastCompact := 0, hint := 0, jobs := [])
  }

  function Next(s: State, step: Step): State
  {
    match step
    case Append(entries) => AppendStep(s, entries)
    case Commit(upTo, bytes) => s.(ready := upTo, hint := (s.hint + bytes) % TWO64)
    case ApplyOne => ApplyStep(s)
    case PostApply => PostApplyStep(s)
    case Snapshot(index, term) => SnapshotStep(s, index, term)
    case RunGC(k, seek) => GCStep(s, k, seek)
    case Restart => RestartStep(s)
  }

  /** A freshly bootstrapped replica. */
  function Bootstrapped(): State
  {
    var a := Apply(INIT_INDEX, INIT_INDEX, INIT_TERM);
    State(map[], INIT_INDEX, INIT_TERM, a, a, [], INIT_INDEX, 0, 0, [])
  }

  /** A replica made for a message from another store: it waits for a snapshot. */
  function Uninitialized(): State
  {
    State(map[], 0, 0, Apply(0, 0, 0), Apply(0, 0, 0), [], 0, 0, 0, [])
  }

  // ---- the log ----

  /** The term at an index from the truncated one to the last one. */
  function TermAt(s: State, i: nat): nat
    requires i == s.ps.trunc || i in s.engine
  {
    if i == s.ps.trunc then s.ps.truncTerm else s.engine[i].term
  }

  /** Every index above the truncated one is stored under its own key. */
  predicate Stored(s: State)
  {
    s.ps.trunc <= s.last && forall i :: s.ps.trunc < i <= s.last ==> i in s.engine && s.engine[i].index == i
  }

  /** Terms never decrease from the truncated term to the last term. */
  predicate TermsRise(s: State)
    requires Stored(s)
  {
    && (forall i, j :: s.ps.trunc <= i <= j <= s.last ==> TermAt(s, i) <= TermAt(s, j))
    && s.lastTerm == TermAt(s, s.last)
  }

  predicate ApplyOk(s: State, a: Apply)
    requires Stored(s)
  {
    s.ps.trunc <= a.trunc <= a.applied <= s.last && a.truncTerm == TermAt(s, a.trunc)
  }

  /** The apply state right before result k. */
  function Before(s: State, k: nat): Apply
    requires k <= |s.results|
  {
    if k == 0 then s.ps else s.results[k - 1].apply
  }

  /** Result k follows from what came before it. */
  predicate Follows(s: State, k: nat)
    requires k < |s.results|
  {
    var b, r := Before(s, k), s.results[k];
    && r.apply.applied == b.applied + 1
    && (r.gc.None? ==> r.apply.trunc == b.trunc)
    && (r.gc.Some? ==> r.gc.value == GC(r.apply.trunc, b.trunc + 1) && b.trunc + 1 < r.apply.trunc <= b.applied)
  }

  predicate Queue(s: State)
    requires Stored(s)
  {
    && s.disk == Before(s, |s.results|)
    && (forall k :: 0 <= k < |s.results| ==> Follows(s, k))
    && (forall k :: 0 <= k <= |s.results| ==> ApplyOk(s, Before(s, k)))
    && s.disk.applied <= s.ready <= s.last
  }

  /** Pending deletions stay at or below the truncated index. */
  predicate Jobs(s: State)
  {
    s.lastCompact <= s.ps.trunc + 1 && forall k :: 0 <= k < |s.jobs| ==> s.jobs[k].end <= s.ps.trunc + 1
  }

  predicate Origin(s: State)
  {
    || (s.last == 0 && s.lastTerm == 0 && s.ps == Apply(0, 0, 0))
    || (s.ps.trunc >= INIT_INDEX && s.ps.truncTerm >= INIT_TERM && (s.ps.trunc == INIT_INDEX ==> s.ps.truncTerm == INIT_TERM)
        && (s.disk.trunc == INIT_INDEX ==> s.disk.truncTerm == INIT_TERM))
  }

  /** A compaction command asks for an index below its own and carries the term of the entry there. */
  predicate RequestOk(s: State, e: Entry)
  {
    e.compact.Some? ==>
      var (index, term) := e.compact.value;
      index < e.index && (s.ps.trunc < index && index in s.engine ==> s.engine[index].term == term)
  }

  predicate Requests(s: State)
    requires Stored(s)
  {
    forall i :: s.ps.trunc < i <= s.last ==> RequestOk(s, s.engine[i])
  }

  predicate Inv(s: State)
  {
    Stored(s) && TermsRise(s) && Queue(s) && Jobs(s) && Origin(s) && Requests(s)
  }

  // ---- what raft and the other components promise ----

  predicate Contiguous(entries: seq<Entry>)
  {
    forall i, j :: 0 <= i <= j < |entries| ==>
      entries[j].index == entries[i].index + (j - i) && entries[i].term <= entries[j].term
  }

  /** Raft overwrites only entries it has not handed out as committed, without a gap and with terms that
      do not go down; a leader proposes to compact to an index below its last one, with the term its log has
      there; a snapshot comes only when everything committed is applied, reaches beyond it and has a term
      that a log can have. */
  predicate Possible(s: State, step: Step)
    requires Stored(s)
  {
    match step
    case Append(entries) =>
      && Contiguous(entries) && s.last >= INIT_INDEX
      && (|entries| > 0 ==> s.ready < entries[0].index <= s.last + 1)
      && (|entries| > 0 && s.ps.trunc < entries[0].index <= s.last + 1 ==> TermAt(s, entries[0].index - 1) <= entries[0].term)
      && (forall k :: 0 <= k < |entries| ==> RequestOk(AppendStep(s, entries), entries[k]))
    case Commit(upTo, _) => s.ready <= upTo <= s.last
    case ApplyOne => s.disk.applied < s.ready
    case PostApply => true
    case Snapshot(index, term) =>
      && s.ps.applied == s.ready && s.ready < index
      && INIT_INDEX <= index && INIT_TERM <= term && (index == INIT_INDEX ==> term == INIT_TERM)
    case RunGC(_, _) => true
    case Restart => true
  }

  // ---- every step keeps the log ----

  /** The engine after a write of consecutive entries, index by index. */
  function Overwritten(engine: map<nat, Entry>, entries: seq<Entry>, f: nat, i: nat): Option<Entry>
  {
    if f <= i < f + |entries| then Some(entries[i - f]) else if i in engine then Some(engine[i]) else None
  }

  lemma {:induction false} WrittenIs(engine: map<nat, Entry>, entries: seq<Entry>, f: nat, i: nat)
    requires forall k :: 0 <= k < |entries| ==> entries[k].index == f + k
    ensures var w := Written(engine, entries);
            Overwritten(engine, entries, f, i) == if i in w then Some(w[i]) else None
  {
    if |entries| > 0 {
      var n := |entries| - 1;
      assert entries[n].index == f + n;
      WrittenIs(engine, entries[..n], f, i);
    }
  }

  lemma AppendStores(s: State, entries: seq<Entry>)
    requires Inv(s) && Possible(s, Append(entries)) && |entries| > 0
    ensures var t := AppendStep(s, entries); var f := entries[0].index;
            && Stored(t) && t.last == f + |entries| - 1
            && (forall i :: s.ps.trunc < i <= t.last ==> t.engine[i] == if i < f then s.engine[i] else entries[i - f])
  {
    var f := entries[0].index;
    assert forall k :: 0 <= k < |entries| ==> entries[k].index == f + k;
    var t := AppendStep(s, entries);
    forall i | s.ps.trunc < i <= t.last
      ensures i in t.engine && t.engine[i] == if i < f then s.engine[i] else entries[i - f]
    {
      WrittenIs(s.engine, entries, f, i);
    }
  }

  lemma AppendTerms(s: State, entries: seq<Entry>)
    requires Inv(s) && Possible(s, Append(entries)) && |entries| > 0
    requires Stored(AppendStep(s, entries))
    ensures TermsRise(AppendStep(s, entries))
  {
    var t := AppendStep(s, entries);
    var f := entries[0].index;
    AppendStores(s, entries);
    assert TermAt(s, f - 1) <= entries[0].term;
    forall i, j | t.ps.trunc <= i <= j <= t.last
      ensures TermAt(t, i) <= TermAt(t, j)
    {
      if j < f {
        assert TermAt(t, i) == TermAt(s, i) && TermAt(t, j) == TermAt(s, j);
      } else if i < f {
        assert TermAt(t, i) == TermAt(s, i) <= TermAt(s, f - 1);
        assert entries[0].term <= entries[j - f].term;
      } else {
        assert entries[i - f].term <= entries[j - f].term;
      }
    }
  }

  lemma AppendKeeps(s: State, entries: seq<Entry>)
    requires Inv(s) && Possible(s, Append(entries))
    ensures Inv(AppendStep(s, entries))
  {
    if |entries| > 0 {
      var t := AppendStep(s, entries);
      AppendStores(s, entries);
      AppendTerms(s, entries);
      forall k | 0 <= k <= |t.results|
        ensures ApplyOk(t, Before(t, k))
      {
        QueueApplied(s, k);
        assert ApplyOk(s, Before(s, k));
      }
      assert forall k :: 0 <= k < |t.results| ==> Follows(s, k) ==> Follows(t, k);
      AppendRequests(s, entries);
    }
  }

  lemma AppendRequests(s: State, entries: seq<Entry>)
    requires Inv(s) && Possible(s, Append(entries)) && |entries| > 0 && Stored(AppendStep(s, entries))
    ensures Requests(AppendStep(s, entries))
  {
    var t := AppendStep(s, entries);
    var f := entries[0].index;
    AppendStores(s, entries);
    forall i | t.ps.trunc < i <= t.last
      ensures RequestOk(t, t.engine[i])
    {
      if i < f {
        assert RequestOk(s, s.engine[i]);
      } else {
        assert RequestOk(t, entries[i - f]);
      }
    }
  }

  /** The applied index counts the results; the truncated index rises along them. */
  lemma {:induction false} QueueApplied(s: State, k: nat)
    requires Stored(s) && Queue(s) && k <= |s.results|
    ensures Before(s, k).applied == s.ps.applied + k && Before(s, k).applied <= s.disk.applied
  {
    QueueCount(s, k);
    QueueCount(s, |s.results|);
  }

  lemma {:induction false} QueueCount(s: State, k: nat)
    requires Stored(s) && Queue(s) && k <= |s.results|
    ensures Before(s, k).applied == s.ps.applied + k
  {
    if k > 0 {
      QueueCount(s, k - 1);
      assert Follows(s, k - 1);
    }
  }

  lemma {:induction false} QueueTrunc(s: State, j: nat, k: nat)
    requires Stored(s) && Queue(s) && j <= k <= |s.results|
    ensures Before(s, j).trunc <= Before(s, k).trunc
  {
    if j < k {
      QueueTrunc(s, j, k - 1);
      assert Follows(s, k - 1);
    }
  }

  lemma ApplyKeeps(s: State)
    requires Inv(s) && Possible(s, ApplyOne)
    ensures Inv(ApplyStep(s))
  {
    var t := ApplyStep(s);
    assert RequestOk(s, s.engine[s.disk.applied + 1]);
    var n := |s.results|;
    assert ApplyOk(s, Before(s, n));
    assert Before(t, n + 1) == t.disk;
    assert forall i :: s.ps.trunc <= i <= s.last ==> TermAt(t, i) == TermAt(s, i);
    forall k | 0 <= k <= |t.results|
      ensures ApplyOk(t, Before(t, k))
    {
      if k <= n {
        assert Before(t, k) == Before(s, k) && ApplyOk(s, Before(s, k));
      }
    }
    forall k | 0 <= k < |t.results|
      ensures Follows(t, k)
    {
      assert Before(t, k) == Before(s, k);
      if k < n {
        assert Follows(s, k);
      }
    }
  }

  /** Moving the raft side's apply state along the queue leaves every term in reach as it was. */
  lemma TermsMove(s: State, t: State, a: Apply)
    requires Inv(s) && ApplyOk(s, a) && t.ps == a && t.engine == s.engine && t.last == s.last
    ensures Stored(t) && forall i :: t.ps.trunc <= i <= t.last ==> TermAt(t, i) == TermAt(s, i)
  {
  }

  lemma PostApplyKeeps(s: State)
    requires Inv(s)
    ensures Inv(PostApplyStep(s))
  {
    if |s.results| > 0 {
      var t := PostApplyStep(s);
      assert Before(s, 1) == t.ps && ApplyOk(s, Before(s, 1));
      TermsMove(s, t, t.ps);
      forall k | 0 <= k <= |t.results|
        ensures ApplyOk(t, Before(t, k))
      {
        assert Before(t, k) == Before(s, k + 1) && ApplyOk(s, Before(s, k + 1));
        QueueTrunc(s, 1, k + 1);
      }
      forall k | 0 <= k < |t.results|
        ensures Follows(t, k)
      {
        assert Before(t, k) == Before(s, k + 1) && Follows(s, k + 1);
      }
      PostApplyJobs(s);
      PostApplyOrigin(s);
    }
  }

  /** A compaction's job starts where the one before ended and ends right after the new truncated index. */
  lemma PostApplyJobs(s: State)
    requires Inv(s) && |s.results| > 0
    ensures Jobs(PostApplyStep(s))
    ensures var t := PostApplyStep(s);
            if s.results[0].gc.Some? then
              t.jobs == s.jobs + [Job(s.lastCompact, t.ps.trunc + 1)] && t.lastCompact == t.ps.trunc + 1
            else t.jobs == s.jobs && t.lastCompact == s.lastCompact && t.ps.trunc == s.ps.trunc
  {
    assert Follows(s, 0);
  }

  lemma PostApplyOrigin(s: State)
    requires Inv(s) && |s.results| > 0
    ensures Origin(PostApplyStep(s))
  {
    assert Follows(s, 0) && ApplyOk(s, Before(s, 1));
    assert Before(s, 1) == s.results[0].apply;
  }

  lemma SnapshotKeeps(s: State, index: nat, term: nat)
    requires Inv(s) && Possible(s, Snapshot(index, term))
    ensures Inv(SnapshotStep(s, index, term))
    ensures var t := SnapshotStep(s, index, term);
            && t.engine == map[] && t.last == t.ready == index && t.lastTerm == term && t.hint == 0
            && t.ps == t.disk == Apply(index, index, term) && t.results == [] && t.jobs == s.jobs && t.lastCompact == s.lastCompact
  {
    QueueApplied(s, |s.results|);
    assert ApplyOk(s, Before(s, 0));
  }

  /** A GC job, however late it runs, touches nothing above the truncated index. */
  lemma GCBelowTruncated(s: State, k: nat, seek: nat, i: nat)
    requires Inv(s) && i > s.ps.trunc
    ensures i in GCStep(s, k, seek).engine <==> i in s.engine
    ensures i in s.engine ==> GCStep(s, k, seek).engine[i] == s.engine[i]
  {
  }

  lemma GCKeeps(s: State, k: nat, seek: nat)
    requires Inv(s)
    ensures Inv(GCStep(s, k, seek))
  {
    if k < |s.jobs| {
      var t := GCStep(s, k, seek);
      forall i | s.ps.trunc < i <= s.last
        ensures i in t.engine && t.engine[i] == s.engine[i]
      {
        GCBelowTruncated(s, k, seek, i);
      }
      assert forall i :: s.ps.trunc <= i <= s.last ==> TermAt(t, i) == TermAt(s, i);
      assert forall n :: 0 <= n < |t.results| ==> Follows(s, n) ==> Follows(t, n);
      assert forall n :: 0 <= n <= |t.results| ==> Before(t, n) == Before(s, n) && (ApplyOk(s, Before(s, n)) ==> ApplyOk(t, Before(t, n)));
    }
  }

  lemma RestartKeeps(s: State)
    requires Inv(s)
    ensures Inv(RestartStep(s)) && InitLastTerm(s.engine, s.last, s.disk).Some?
    ensures var t := RestartStep(s);
            && t.engine == s.engine && t.last == s.last && t.lastTerm == s.lastTerm
            && t.ps == t.disk == s.disk && t.ready == s.disk.applied && t.results == [] && t.jobs == []
  {
    var t := RestartStep(s);
    assert ApplyOk(s, Before(s, |s.results|));
    assert TermAt(s, s.ps.trunc) <= TermAt(s, s.disk.trunc);
    TermsMove(s, t, s.disk);
  }

  lemma CommitKeeps(s: State, upTo: nat, bytes: nat)
    requires Inv(s) && Possible(s, Commit(upTo, bytes))
    ensures Inv(Next(s, Commit(upTo, bytes)))
  {
    var t := Next(s, Commit(upTo, bytes));
    assert forall i :: s.ps.trunc <= i <= s.last ==> TermAt(t, i) == TermAt(s, i);
    assert forall n :: 0 <= n < |t.results| ==> Follows(s, n) ==> Follows(t, n);
    assert forall n :: 0 <= n <= |t.results| ==> Before(t, n) == Before(s, n) && (ApplyOk(s, Before(s, n)) ==> ApplyOk(t, Before(t, n)));
  }

  lemma NextKeeps(s: State, step: Step)
    requires Inv(s) && Possible(s, step)
    ensures Inv(Next(s, step))
  {
    match step
    case Append(entries) => AppendKeeps(s, entries);
    case Commit(upTo, bytes) => CommitKeeps(s, upTo, bytes);
    case ApplyOne => ApplyKeeps(s);
    case PostApply => PostApplyKeeps(s);
    case Snapshot(index, term) => SnapshotKeeps(s, index, term);
    case RunGC(k, seek) => GCKeeps(s, k, seek);
    case Restart => RestartKeeps(s);
  }

  function Run(s: State, steps: seq<Step>): State
  {
    if |steps| == 0 then s
    else
      var n := |steps| - 1;
      Next(Run(s, steps[..n]), steps[n])
  }

  predicate PossibleRun(s: State, steps: seq<Step>)
  {
    |steps| == 0 || (var n := |steps| - 1;
                     PossibleRun(s, steps[..n]) && Stored(Run(s, steps[..n])) && Possible(Run(s, steps[..n]), steps[n]))
  }

  /** Over any interleaving of appends, commits, applies, snapshots, compactions, late GC jobs and
      restarts the log stays whole above the truncated index and its terms in order. */
  lemma {:induction false} LogInvariant(s: State, steps: seq<Step>)
    requires s == Bootstrapped() || s == Uninitialized()
    requires PossibleRun(s, steps)
    ensures Inv(Run(s, steps))
  {
    if |steps| > 0 {
      var n := |steps| - 1;
      LogInvariant(s, steps[..n]);
      NextKeeps(Run(s, steps[..n]), steps[n]);
    }
  }

  /** The truncated index never goes down, on disk and in memory, and stays at or below the applied one. */
  lemma TruncatedRises(s: State, step: Step)
    requires Inv(s) && Possible(s, step)
    ensures var t := Next(s, step);
            s.ps.trunc <= t.ps.trunc <= t.ps.applied && s.disk.trunc <= t.disk.trunc <= t.disk.applied
  {
    NextKeeps(s, step);
    var t := Next(s, step);
    assert ApplyOk(t, Before(t, 0)) && ApplyOk(t, Before(t, |t.results|));
    assert ApplyOk(s, Before(s, 0)) && ApplyOk(s, Before(s, |s.results|));
    if step.PostApply? && |s.results| > 0 {
      assert ApplyOk(s, Before(s, 1));
    }
  }

  /** Commits hand out more, each application moves the applied index by one and posts it, and posted results are
      taken in order. */
  lemma StepsAdvance(s: State, step: Step)
    requires Inv(s) && Possible(s, step)
    ensures var t := Next(s, step);
            && (step.Commit? ==> t == s.(ready := step.upTo, hint := t.hint))
            && (step.ApplyOne? ==>
                  && t.disk.applied == s.disk.applied + 1 && |t.results| == |s.results| + 1
                  && t.results[..|s.results|] == s.results && t.results[|s.results|].apply == t.disk
                  && (s.engine[s.disk.applied + 1].compact.None? ==>
                        t.disk == s.disk.(applied := t.disk.applied) && t.results[|s.results|].gc.None?))
            && (step.PostApply? && |s.results| > 0 ==> t.ps == s.results[0].apply && t.results == s.results[1..])
  {
  }

  /** The next entry's compaction is not refused: the index is at most the applied one; if it is beyond the first
      one the log is truncated to exactly it, with the term stored there, and otherwise it stays. */
  predicate CompactionTaken(t: State, index: nat, term: nat)
  {
    var u := ApplyStep(t);
    && index <= t.disk.applied && !Compact(t.disk, index, term).Refused?
    && u.disk.applied == t.disk.applied + 1
    && if t.disk.trunc + 1 < index then
         && index in t.engine && u.disk.trunc == index && u.disk.truncTerm == t.engine[index].term
         && u.results == t.results + [Result(u.disk, Some(GC(index, t.disk.trunc + 1)))]
       else u.disk.trunc == t.disk.trunc && u.disk.truncTerm == t.disk.truncTerm && u.results == t.results + [Result(u.disk, None)]
  }

  /** The apply side has a next committed entry and it is this compaction command. */
  predicate NextCompacts(t: State, index: nat, term: nat)
  {
    t.disk.applied < t.ready && t.disk.applied + 1 in t.engine && t.engine[t.disk.applied + 1].compact == Some((index, term))
  }

  /** Over every run, a compaction command that the apply side reaches is never refused. */
  lemma CompactionNeverRefused(s: State, steps: seq<Step>, t: State, index: nat, term: nat)
    requires (s == Bootstrapped() || s == Uninitialized()) && PossibleRun(s, steps) && t == Run(s, steps)
    requires NextCompacts(t, index, term)
    ensures CompactionTaken(t, index, term)
  {
    LogInvariant(s, steps);
    CommandTaken(t, index, term);
  }

  lemma CommandTaken(t: State, index: nat, term: nat)
    requires Inv(t) && t.disk.applied < t.ready && t.engine[t.disk.applied + 1].compact == Some((index, term))
    ensures CompactionTaken(t, index, term)
  {
    var i := t.disk.applied + 1;
    assert ApplyOk(t, Before(t, |t.results|));
    assert RequestOk(t, t.engine[i]);
    if t.disk.trunc < index {
      assert TermAt(t, t.ps.trunc) <= TermAt(t, index);
    }
  }

  // ---- nothing is left behind ----

  /** A pending job will delete the index. */
  predicate Covered(s: State, i: nat)
  {
    exists k :: 0 <= k < |s.jobs| && s.jobs[k].start <= i < s.jobs[k].end
  }

  /** Nothing is stored beyond the last index; what is stored at or below the truncated one waits for a
      GC job, except that before the first compaction after a start older entries may still lie about. */
  predicate Clean(s: State)
  {
    forall i :: i in s.engine ==> i <= s.last && (i > s.ps.trunc || s.lastCompact == 0 || Covered(s, i))
  }

  /** A seek finds the first stored index. */
  predicate SeeksFirst(s: State, step: Step)
  {
    step.RunGC? && step.job < |s.jobs| && s.jobs[step.job].start == 0 ==> forall i :: i in s.engine ==> step.seek <= i
  }

  lemma AppendClean(s: State, entries: seq<Entry>)
    requires Inv(s) && Clean(s) && Possible(s, Append(entries))
    ensures Clean(AppendStep(s, entries))
  {
    if |entries| > 0 {
      var t := AppendStep(s, entries);
      var f := entries[0].index;
      assert forall k :: 0 <= k < |entries| ==> entries[k].index == f + k;
      assert ApplyOk(s, Before(s, 0));
      QueueApplied(s, 0);
      forall i | i in t.engine
        ensures i <= t.last && (i > t.ps.trunc || t.lastCompact == 0 || Covered(t, i))
      {
        WrittenIs(s.engine, entries, f, i);
        if i < f {
          assert i in s.engine;
          if Covered(s, i) {
            var k :| 0 <= k < |s.jobs| && s.jobs[k].start <= i < s.jobs[k].end;
            assert t.jobs[k] == s.jobs[k];
          }
        }
      }
    }
  }

  lemma PostApplyClean(s: State)
    requires Inv(s) && Clean(s) && |s.results| > 0
    ensures Clean(PostApplyStep(s))
  {
    var t := PostApplyStep(s);
    assert Follows(s, 0);
    forall i | i in t.engine
      ensures i <= t.last && (i > t.ps.trunc || t.lastCompact == 0 || Covered(t, i))
    {
      if s.results[0].gc.Some? {
        var n := |s.jobs|;
        assert t.jobs[n] == Job(s.lastCompact, t.ps.trunc + 1);
        if Covered(s, i) {
          var k :| 0 <= k < n && s.jobs[k].start <= i < s.jobs[k].end;
          assert t.jobs[k] == s.jobs[k];
        } else if i <= t.ps.trunc {
          assert t.jobs[n].start <= i < t.jobs[n].end;
        }
      } else if Covered(s, i) {
        var k :| 0 <= k < |s.jobs| && s.jobs[k].start <= i < s.jobs[k].end;
        assert t.jobs[k] == s.jobs[k];
      }
    }
  }

  lemma GCClean(s: State, k: nat, seek: nat)
    requires Inv(s) && Clean(s) && SeeksFirst(s, RunGC(k, seek))
    ensures Clean(GCStep(s, k, seek))
  {
    if k < |s.jobs| {
      var t := GCStep(s, k, seek);
      forall i | i in t.engine
        ensures i <= t.last && (i > t.ps.trunc || t.lastCompact == 0 || Covered(t, i))
      {
        if Covered(s, i) {
          var j :| 0 <= j < |s.jobs| && s.jobs[j].start <= i < s.jobs[j].end;
          assert j != k;
          assert t.jobs[if j < k then j else j - 1] == s.jobs[j];
        }
      }
    }
  }

  lemma NextClean(s: State, step: Step)
    requires Inv(s) && Clean(s) && Possible(s, step) && SeeksFirst(s, step)
    ensures Clean(Next(s, step))
  {
    var t := Next(s, step);
    match step
    case Append(entries) => AppendClean(s, entries);
    case PostApply => if |s.results| > 0 { PostApplyClean(s); }
    case RunGC(k, seek) => GCClean(s, k, seek);
    case Commit(_, _) => SameJobs(s, t);
    case ApplyOne => SameJobs(s, t);
    case Snapshot(_, _) =>
    case Restart =>
  }

  lemma SameJobs(s: State, t: State)
    requires Clean(s) && t.engine == s.engine && t.last == s.last && t.ps == s.ps && t.jobs == s.jobs
    requires t.lastCompact == s.lastCompact
    ensures Clean(t)
  {
    forall i | i in t.engine && Covered(s, i)
      ensures Covered(t, i)
    {
      var k :| 0 <= k < |s.jobs| && s.jobs[k].start <= i < s.jobs[k].end;
      assert t.jobs[k].start <= i < t.jobs[k].end;
    }
  }

  predicate SeekingRun(s: State, steps: seq<Step>)
  {
    forall i :: 0 <= i < |steps| ==> SeeksFirst(Run(s, steps[..i]), steps[i])
  }

  lemma {:induction false} CleanInvariant(s: State, steps: seq<Step>)
    requires s == Bootstrapped() || s == Uninitialized()
    requires PossibleRun(s, steps) && SeekingRun(s, steps)
    ensures Clean(Run(s, steps))
  {
    if |steps| > 0 {
      var n := |steps| - 1;
      assert forall i :: 0 <= i < n ==> steps[..n][..i] == steps[..i];
      LogInvariant(s, steps[..n]);
      CleanInvariant(s, steps[..n]);
      NextClean(Run(s, steps[..n]), steps[n]);
    }
  }

  /** Once something has been compacted since the last start and every GC job has run, in whatever order
      and however late, the engine holds exactly the indices above the truncated one up to the last. */
  lemma NothingLeftBehind(s: State, steps: seq<Step>)
    requires s == Bootstrapped() || s == Uninitialized()
    requires PossibleRun(s, steps) && SeekingRun(s, steps)
    requires Run(s, steps).jobs == [] && Run(s, steps).lastCompact > 0
    ensures var t := Run(s, steps); forall i :: i in t.engine <==> t.ps.trunc < i <= t.last
  {
    LogInvariant(s, steps);
    CleanInvariant(s, steps);
  }

  // ---- Term ----

  datatype TermResult = Found(term: nat) | Missing | ErrCompacted | OutOfBound

  /** The lookup with its shortcut: one term from the truncated index to the last one. */
  function Term(s: State, idx: nat): TermResult
  {
    if idx == s.ps.trunc then Found(s.ps.truncTerm)
    else if idx <= s.ps.trunc then ErrCompacted
    else if idx + 1 > s.last + 1 then OutOfBound
    else if s.ps.truncTerm == s.lastTerm || idx == s.last then Found(s.lastTerm)
    else if idx !in s.engine then Missing
    else Found(s.engine[idx].term)
  }

  /** In every reachable state Term is the term of the entry stored at the index. */
  lemma TermIsStored(s: State, idx: nat)
    requires Inv(s)
    ensures s.ps.trunc < idx <= s.last ==> Term(s, idx) == Found(s.engine[idx].term)
    ensures idx == s.ps.trunc ==> Term(s, idx) == Found(s.ps.truncTerm)
    ensures idx < s.ps.trunc <==> Term(s, idx) == ErrCompacted
    ensures idx > s.last <==> Term(s, idx) == OutOfBound
  {
    if s.ps.trunc < idx <= s.last {
      assert TermAt(s, s.ps.trunc) <= TermAt(s, idx) <= TermAt(s, s.last);
    }
  }

  // ---- the size hint ----

  lemma {:induction false} MulMono(p: nat, q: nat, c: nat)
    requires p <= q
    ensures c * p <= c * q
    decreases q
  {
    if p < q {
      MulMono(p, q - 1, c);
      assert c * q == c * (q - 1) + c;
    }
  }

  lemma DivBound(x: nat, a: nat, c: nat)
    requires c > 0 && x <= c * a
    ensures x / c <= a
  {
    var q := x / c;
    assert c * q <= x;
    assert c * (a + 1) == c * a + c;
    if q > a {
      MulMono(a + 1, q, c);
    }
  }

  lemma HintShrinks(hint: nat, remain: nat, total: nat)
    requires remain <= total && total > 0
    ensures NewHint(hint, remain, total) <= hint
  {
    MulMono(remain, total, hint);
    assert hint * total == total * hint;
    var x := hint * remain;
    assert x % TWO64 <= x;
    DivBound(x % TWO64, hint, total);
  }

  /** Without wrap-around the new hint is the share that remains, rounded down. */
  lemma HintIsShare(hint: nat, remain: nat, total: nat)
    requires total > 0 && hint * remain < TWO64
    ensures var h := NewHint(hint, remain, total); total * h <= hint * remain < total * h + total
  {
    var x := hint * remain;
    assert x % TWO64 == x;
    var h := x / total;
    assert x == total * h + x % total;
  }

  /** The subtractions of doApplyRaftLogGC stay nonnegative, the divisor is positive, and the size hint
      does not rise, not even when the product wraps around. */
  lemma HintArithmetic(s: State)
    requires Inv(s) && |s.results| > 0 && s.results[0].gc.Some?
    ensures var gc := s.results[0].gc.value;
            gc.firstIndex < s.ready && gc.index + 1 <= s.ready && s.ready - gc.index - 1 < s.ready - gc.firstIndex
    ensures PostApplyStep(s).hint <= s.hint
    ensures var gc := s.results[0].gc.value;
            var remain, total, h := s.ready - gc.index - 1, s.ready - gc.firstIndex, PostApplyStep(s).hint;
            s.hint * remain < TWO64 ==> total * h <= s.hint * remain < total * h + total
  {
    assert Follows(s, 0);
    QueueApplied(s, 1);
    var gc := s.results[0].gc.value;
    var remain, total := s.ready - gc.index - 1, s.ready - gc.firstIndex;
    HintShrinks(s.hint, remain, total);
    if s.hint * remain < TWO64 {
      HintIsShare(s.hint, remain, total);
    }
  }

  /** The bytes handed out as committed by a step. */
  function BytesOf(steps: seq<Step>): nat
  {
    if |steps| == 0 then 0
    else
      var n := |steps| - 1;
      BytesOf(steps[..n]) + if steps[n].Commit? then steps[n].bytes else 0
  }

  /** Between compactions, snapshots and restarts the hint is the number of bytes handed out, modulo 2^64. */
  lemma {:induction false} HintCountsBytes(s: State, steps: seq<Step>)
    requires s.hint < TWO64
    requires forall i :: 0 <= i < |steps| ==> !steps[i].PostApply? && !steps[i].Snapshot? && !steps[i].Restart?
    ensures Run(s, steps).hint == (s.hint + BytesOf(steps)) % TWO64
  {
    if |steps| > 0 {
      var n := |steps| - 1;
      HintCountsBytes(s, steps[..n]);
      if steps[n].Commit? {
        ModAdd(s.hint + BytesOf(steps[..n]), steps[n].bytes);
      }
    }
  }

  lemma ModAdd(x: nat, y: nat)
    ensures (x % TWO64 + y) % TWO64 == (x + y) % TWO64
  {
    var q := x / TWO64;
    assert x == TWO64 * q + x % TWO64;
    ModShift(x % TWO64 + y, q);
  }

  lemma {:induction false} ModShift(z: nat, q: nat)
    ensures (TWO64 * q + z) % TWO64 == z % TWO64
  {
    if q > 0 {
      ModShift(z, q - 1);
      var w := TWO64 * (q - 1) + z;
      assert TWO64 * q + z == w + TWO64;
      assert (w + TWO64) % TWO64 == w % TWO64;
    }
  }
}
