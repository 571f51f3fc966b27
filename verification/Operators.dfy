/** Scheduling operators driven by heartbeats, the coordinator's table of them and its limiter. */
module Operators {
  import opened Cells
  import opened Words

  datatype Action = AddNode(peer: Peer) | RemoveNode(peer: Peer) | TransferLeader(peer: Peer)

  datatype Kind = AdminKind | LeaderKind | CellKind

  /** What a heartbeat reports. */
  datatype Report = Report(peers: seq<Peer>, pending: seq<Peer>, leader: Peer)

  predicate HasId(peers: seq<Peer>, id: nat)
  {
    exists i :: 0 <= i < |peers| && peers[i].id == id
  }

  function ActionKind(a: Action): Kind
  {
    if a.TransferLeader? then LeaderKind else CellKind
  }

  /** The request to send, if any, and whether the action is finished. */
  function DoAction(a: Action, cell: Report): (Option<Action>, bool)
  {
    match a
    case AddNode(p) =>
      if HasId(cell.pending, p.id) then (None, false)
      else if HasId(cell.peers, p.id) then (None, true)
      else (Some(a), false)
    case RemoveNode(p) =>
      if !HasId(cell.peers, p.id) then (None, true) else (Some(a), false)
    case TransferLeader(p) =>
      if cell.leader.id == p.id then (None, true) else (Some(a), false)
  }

  /** The heartbeat shows the action's goal: the peer is a member that is not pending, is gone, or leads. */
  predicate Effective(a: Action, cell: Report)
  {
    match a
    case AddNode(p) => HasId(cell.peers, p.id) && !HasId(cell.pending, p.id)
    case RemoveNode(p) => !HasId(cell.peers, p.id)
    case TransferLeader(p) => cell.leader.id == p.id
  }

  /** An action that is not effective asks for itself, except that a pending new peer is waited for. */
  predicate MustAsk(a: Action, cell: Report)
  {
    !Effective(a, cell) && !(a.AddNode? && HasId(cell.pending, a.peer.id))
  }

  lemma ActionMeans(a: Action, cell: Report)
    ensures DoAction(a, cell).1 <==> Effective(a, cell)
    ensures DoAction(a, cell).0 == if MustAsk(a, cell) then Some(a) else None
  {
  }

  /** Unfinished actions from index `last` on: the new index, the request and whether all are finished. */
  function DoFrom(ops: seq<Action>, last: nat, cell: Report): (r: (nat, Option<Action>, bool))
    requires last <= |ops|
    ensures last <= r.0 <= |ops|
    ensures r.2 <==> r.0 == |ops|
    ensures forall i :: last <= i < r.0 ==> Effective(ops[i], cell)
    ensures r.0 < |ops| ==> !Effective(ops[r.0], cell)
    ensures r.1 == if r.0 < |ops| && MustAsk(ops[r.0], cell) then Some(ops[r.0]) else None
    decreases |ops| - last
  {
    if last == |ops| then (last, None, true)
    else
      var (res, finished) := DoAction(ops[last], cell);
      if finished then DoFrom(ops, last + 1, cell) else (last, res, false)
  }

  class AggregationOperator {
    const ops: seq<Action>
    var lastIndex: nat

    ghost predicate Valid()
      reads this
    {
      lastIndex <= |ops|
    }

    constructor (ops: seq<Action>)
      requires ops != []
      ensures this.ops == ops && lastIndex == 0 && Valid()
    {
      this.ops, lastIndex := ops, 0;
    }

    /** expired: the operator has waited longer than the maximal time. */
    method Do(cell: Report, expired: bool) returns (res: Option<Action>, finished: bool)
      requires Valid()
      modifies this
      ensures Valid()
      ensures expired ==> lastIndex == old(lastIndex) && res.None? && finished
      ensures !expired ==> old(lastIndex) <= lastIndex && forall i :: old(lastIndex) <= i < lastIndex ==> Effective(ops[i], cell)
      ensures !expired ==> (finished <==> lastIndex == |ops|)
      ensures !finished ==> !Effective(ops[lastIndex], cell)
      ensures res == if !finished && MustAsk(ops[lastIndex], cell) then Some(ops[lastIndex]) else None
    {
      if expired {
        return None, true;
      }
      while lastIndex < |ops|
        invariant Valid() && old(lastIndex) <= lastIndex
        invariant forall i :: old(lastIndex) <= i < lastIndex ==> Effective(ops[i], cell)
        decreases |ops| - lastIndex
      {
        var d := DoAction(ops[lastIndex], cell);
        if !d.1 {
          return d.0, false;
        }
        lastIndex := lastIndex + 1;
      }
      return None, true;
    }
  }

  // ---- a transfer-peer operator against the cell it moves ----

  /** How the cell's group applies a membership change: by store, and not twice. */
  function ApplyChange(peers: seq<Peer>, a: Action): seq<Peer>
  {
    match a
    case AddNode(p) => if OnStore(peers, p.storeId) then peers else peers + [p]
    case RemoveNode(p) => WithoutStore(peers, p.storeId)
    case TransferLeader(_) => peers
  }

  /** past: every membership the cell has had, oldest first; last: the operator's index; issued: the
      requests it sent so far. */
  datatype Transfer = Transfer(past: seq<seq<Peer>>, last: nat, issued: set<Action>)

  datatype Move =
    | Heartbeat(k: nat, pending: seq<Peer>, leader: Peer)   // the k-th membership is reported, late or not
    | Apply(a: Action)                                      // a request takes effect, late or repeatedly

  function Members(t: Transfer): seq<Peer>
    requires t.past != []
  {
    t.past[|t.past| - 1]
  }

  function TransferOps(was: Peer, now: Peer): seq<Action>
  {
    [AddNode(now), RemoveNode(was)]
  }

  function Step(t: Transfer, m: Move, was: Peer, now: Peer): Transfer
    requires t.past != [] && t.last <= 2
  {
    match m
    case Heartbeat(k, pending, leader) =>
      if k < |t.past| then
        var r := DoFrom(TransferOps(was, now), t.last, Report(t.past[k], pending, leader));
        t.(last := r.0, issued := t.issued + if r.1.Some? then {r.1.value} else {})
      else t
    case Apply(a) =>
      if a in t.issued then t.(past := t.past + [ApplyChange(Members(t), a)]) else t
  }

  /** The membership once the new peer has joined: with or without the leaving one. */
  ghost predicate After(peers: seq<Peer>, start: seq<Peer>, was: Peer, now: Peer)
  {
    peers == start + [now] || peers == WithoutStore(start + [now], was.storeId)
  }

  ghost predicate TransferInv(t: Transfer, start: seq<Peer>, was: Peer, now: Peer)
  {
    && t.past != [] && t.last <= 2
    && t.issued <= {AddNode(now), RemoveNode(was)}
    && (forall k :: 0 <= k < |t.past| ==>
          t.past[k] == start || After(t.past[k], start, was, now))
    && (Members(t) == start ==> forall k :: 0 <= k < |t.past| ==> t.past[k] == start)
    && (RemoveNode(was) in t.issued ==> t.last > 0)
    && (t.last > 0 ==> Members(t) != start)
  }

  /** The cell before the move: one peer per store, the leaving one among them, the new one neither by
      store nor by id. */
  ghost predicate Movable(start: seq<Peer>, was: Peer, now: Peer)
  {
    && was in start && !OnStore(start, now.storeId) && !HasId(start, now.id)
    && forall i, j :: 0 <= i < j < |start| ==> start[i].storeId != start[j].storeId
  }

  lemma {:induction false} DropOne(peers: seq<Peer>, p: Peer)
    requires p in peers && forall i, j :: 0 <= i < j < |peers| ==> peers[i].storeId != peers[j].storeId
    ensures |WithoutStore(peers, p.storeId)| == |peers| - 1
  {
    var n := |peers| - 1;
    if peers[n] == p {
      assert !OnStore(peers[..n], p.storeId);
      WithoutStoreNone(peers[..n], p.storeId);
    } else {
      var i :| 0 <= i < n && peers[i] == p;
      assert peers[..n][i] == p && peers[n].storeId != p.storeId;
      DropOne(peers[..n], p);
    }
  }

  lemma JoinedKeepsCount(start: seq<Peer>, was: Peer, now: Peer, peers: seq<Peer>)
    requires Movable(start, was, now) && After(peers, start, was, now)
    ensures now in peers && peers != start && |peers| >= |start|
  {
    var both := start + [now];
    assert both[|start|] == now && now in both && was in both;
    assert now !in start;
    WithoutStoreIs(both, was.storeId);
    DropOne(both, was);
  }

  /** The two requests lead from the starting membership to the joined ones and stay there. */
  lemma ChangeJoins(start: seq<Peer>, was: Peer, now: Peer, peers: seq<Peer>, a: Action)
    requires Movable(start, was, now) && a in {AddNode(now), RemoveNode(was)}
    requires After(peers, start, was, now) || (peers == start && a.AddNode?)
    ensures After(ApplyChange(peers, a), start, was, now)
  {
    var both := start + [now];
    var moved := WithoutStore(both, was.storeId);
    if After(peers, start, was, now) {
      JoinedKeepsCount(start, was, now, peers);
      assert OnStore(peers, now.storeId);
    }
    WithoutStoreIs(both, was.storeId);
    WithoutStoreNone(moved, was.storeId);
  }

  /** The operator gets past its first action, and so can ask for the removal, only on a heartbeat that
      reports the new peer as a member that is not pending. */
  lemma RemovalNeedsJoin(t: Transfer, m: Move, was: Peer, now: Peer)
    requires t.past != [] && t.last == 0 && Step(t, m, was, now).last > 0
    ensures m.Heartbeat? && m.k < |t.past| && HasId(t.past[m.k], now.id) && !HasId(m.pending, now.id)
  {
    var cell := Report(t.past[m.k], m.pending, m.leader);
    assert DoAction(TransferOps(was, now)[0], cell).1;
  }

  lemma HeartbeatKeeps(t: Transfer, m: Move, start: seq<Peer>, was: Peer, now: Peer)
    requires Movable(start, was, now) && TransferInv(t, start, was, now) && m.Heartbeat?
    ensures TransferInv(Step(t, m, was, now), start, was, now)
  {
    if m.k < |t.past| && t.past[m.k] == start {
      var cell := Report(start, m.pending, m.leader);
      assert !DoAction(AddNode(now), cell).1;
    }
  }

  lemma ApplyKeeps(t: Transfer, m: Move, start: seq<Peer>, was: Peer, now: Peer)
    requires Movable(start, was, now) && TransferInv(t, start, was, now) && m.Apply?
    ensures TransferInv(Step(t, m, was, now), start, was, now)
  {
    if m.a in t.issued {
      var mem := Members(t);
      ChangeJoins(start, was, now, mem, m.a);
      JoinedKeepsCount(start, was, now, ApplyChange(mem, m.a));
      var u := Step(t, m, was, now);
      assert forall k :: 0 <= k < |t.past| ==> u.past[k] == t.past[k];
    }
  }

  function RunMoves(start: seq<Peer>, moves: seq<Move>, was: Peer, now: Peer): (t: Transfer)
    ensures t.past != [] && t.last <= 2
  {
    if |moves| == 0 then Transfer([start], 0, {})
    else Step(RunMoves(start, moves[..|moves| - 1], was, now), moves[|moves| - 1], was, now)
  }

  lemma {:induction false} TransferRuns(start: seq<Peer>, moves: seq<Move>, was: Peer, now: Peer)
    requires Movable(start, was, now)
    ensures TransferInv(RunMoves(start, moves, was, now), start, was, now)
  {
    if |moves| > 0 {
      var n := |moves| - 1;
      TransferRuns(start, moves[..n], was, now);
      var t := RunMoves(start, moves[..n], was, now);
      if moves[n].Heartbeat? {
        HeartbeatKeeps(t, moves[n], start, was, now);
      } else {
        ApplyKeeps(t, moves[n], start, was, now);
      }
    }
  }

  /** Move n is a heartbeat that reports the new peer as a member that is not pending. */
  predicate ReportsJoined(start: seq<Peer>, moves: seq<Move>, was: Peer, now: Peer, n: nat)
    requires n < |moves|
  {
    var past := RunMoves(start, moves[..n], was, now).past;
    moves[n].Heartbeat? && moves[n].k < |past| && HasId(past[moves[n].k], now.id) && !HasId(moves[n].pending, now.id)
  }

  lemma {:induction false} JoinWasReported(start: seq<Peer>, moves: seq<Move>, was: Peer, now: Peer)
    requires RunMoves(start, moves, was, now).last > 0
    ensures exists n :: 0 <= n < |moves| && ReportsJoined(start, moves, was, now, n)
  {
    var n := |moves| - 1;
    var t := RunMoves(start, moves[..n], was, now);
    if t.last == 0 {
      RemovalNeedsJoin(t, moves[n], was, now);
      assert ReportsJoined(start, moves, was, now, n);
    } else {
      JoinWasReported(start, moves[..n], was, now);
      var k :| 0 <= k < n && ReportsJoined(start, moves[..n], was, now, k);
      assert moves[..n][..k] == moves[..k] && moves[..n][k] == moves[k];
      assert ReportsJoined(start, moves, was, now, k);
    }
  }

  /** Whatever heartbeats arrive and whenever the requests take effect, the removal is asked for only
      after the new peer is a member and some heartbeat reported it as one that is not pending, and the
      replica count never falls below the starting one. */
  lemma NeverBelowStart(start: seq<Peer>, moves: seq<Move>, was: Peer, now: Peer)
    requires Movable(start, was, now)
    ensures var t := RunMoves(start, moves, was, now);
            && (RemoveNode(was) in t.issued ==> now in Members(t))
            && (RemoveNode(was) in t.issued ==> exists n :: 0 <= n < |moves| && ReportsJoined(start, moves, was, now, n))
            && forall k :: 0 <= k < |t.past| ==> |t.past[k]| >= |start|
  {
    TransferRuns(start, moves, was, now);
    var t := RunMoves(start, moves, was, now);
    if t.last > 0 {
      JoinWasReported(start, moves, was, now);
    }
    forall k | 0 <= k < |t.past| && t.past[k] != start
      ensures now in t.past[k] && |t.past[k]| >= |start|
    {
      JoinedKeepsCount(start, was, now, t.past[k]);
    }
  }

  /** A heartbeat without the new peer, pending or not, asks for it; one that shows it joined beside the old peer
      asks for the removal; one that shows it joined and the old one gone finishes the operator. */
  lemma HeartbeatAsks(t: Transfer, m: Move, was: Peer, now: Peer)
    requires t.past != [] && t.last <= 2 && m.Heartbeat? && m.k < |t.past| && !HasId(m.pending, now.id)
    ensures var u := Step(t, m, was, now); var peers := t.past[m.k];
            && t.issued <= u.issued
            && (t.last == 0 && !HasId(peers, now.id) ==> AddNode(now) in u.issued)
            && (t.last <= 1 && HasId(peers, now.id) && HasId(peers, was.id) ==> RemoveNode(was) in u.issued)
            && (HasId(peers, now.id) && !HasId(peers, was.id) ==> u.last == 2)
  {
    var cell := Report(t.past[m.k], m.pending, m.leader);
    var ops := TransferOps(was, now);
    var r := DoFrom(ops, t.last, cell);
    assert ops[0] == AddNode(now) && ops[1] == RemoveNode(was);
  }

  /** The heartbeats and changes of a transfer that nothing delays. */
  function PromptMoves(was: Peer, now: Peer, leader: Peer): seq<Move>
  {
    [Heartbeat(0, [], leader), Apply(AddNode(now)), Heartbeat(1, [], leader), Apply(RemoveNode(was)), Heartbeat(2, [], leader)]
  }

  /** It ends with the new peer in place of the old one and the operator finished. */
  lemma TransferCompletes(start: seq<Peer>, was: Peer, now: Peer, leader: Peer)
    requires Movable(start, was, now) && forall i, j :: 0 <= i < j < |start| ==> start[i].id != start[j].id
    ensures var t := RunMoves(start, PromptMoves(was, now, leader), was, now);
            t.last == 2 && Members(t) == WithoutStore(start + [now], was.storeId)
            && now in Members(t) && was !in Members(t) && |Members(t)| == |start|
  {
    var m := PromptMoves(was, now, leader);
    var t0 := Transfer([start], 0, {});
    var t1 := Step(t0, m[0], was, now);
    HeartbeatAsks(t0, m[0], was, now);
    var t2 := Step(t1, m[1], was, now);
    var both := start + [now];
    assert t1.last == 0 && t2.past == [start, both];
    assert both[|start|] == now;
    var k :| 0 <= k < |start| && start[k] == was;
    assert both[k] == was;
    HeartbeatAsks(t2, m[2], was, now);
    var t3 := Step(t2, m[2], was, now);
    var t4 := Step(t3, m[3], was, now);
    var moved := WithoutStore(both, was.storeId);
    assert t4.past == [start, both, moved];
    MovedOut(start, was, now);
    HeartbeatAsks(t4, m[4], was, now);
    FiveMoves(start, m, was, now);
  }

  lemma MovedOut(start: seq<Peer>, was: Peer, now: Peer)
    requires Movable(start, was, now) && forall i, j :: 0 <= i < j < |start| ==> start[i].id != start[j].id
    ensures var moved := WithoutStore(start + [now], was.storeId);
            HasId(moved, now.id) && !HasId(moved, was.id) && now in moved && was !in moved && |moved| == |start|
  {
    var both := start + [now];
    var moved := WithoutStore(both, was.storeId);
    WithoutStoreIs(both, was.storeId);
    var k :| 0 <= k < |start| && start[k] == was;
    assert both[k] == was && both[|start|] == now;
    assert now in moved;
    DropOne(both, was);
    forall i | 0 <= i < |moved|
      ensures moved[i].id != was.id
    {
      assert moved[i] in moved && moved[i] in both;
    }
  }

  lemma FiveMoves(start: seq<Peer>, m: seq<Move>, was: Peer, now: Peer)
    requires |m| == 5
    ensures RunMoves(start, m, was, now) ==
            var t1 := Step(Transfer([start], 0, {}), m[0], was, now);
            var t2 := Step(t1, m[1], was, now);
            var t3 := Step(t2, m[2], was, now);
            Step(Step(t3, m[3], was, now), m[4], was, now)
  {
    assert m[..4][..3] == m[..3] && m[..3][..2] == m[..2] && m[..2][..1] == m[..1] && m[..1][..0] == [];
    assert RunMoves(start, m[..1], was, now) == Step(Transfer([start], 0, {}), m[0], was, now);
    assert RunMoves(start, m[..2], was, now) == Step(RunMoves(start, m[..1], was, now), m[1], was, now);
    assert RunMoves(start, m[..3], was, now) == Step(RunMoves(start, m[..2], was, now), m[2], was, now);
    assert RunMoves(start, m[..4], was, now) == Step(RunMoves(start, m[..3], was, now), m[3], was, now);
  }

  // ---- the coordinator's operator table and limiter ----

  /** A bare membership change, or an aggregation with the index of its first unfinished action. */
  datatype Operator = Single(cell: nat, action: Action) | Agg(cell: nat, ops: seq<Action>, last: nat)

  predicate WellFormed(op: Operator)
  {
    op.Agg? ==> op.ops != [] && op.last <= |op.ops|
  }

  function OpKind(op: Operator): Kind
    requires WellFormed(op)
  {
    match op
    case Single(_, a) => ActionKind(a)
    case Agg(_, ops, _) => ActionKind(ops[0])
  }

  /** Membership changes and transfers of a peer count as cell operators, leader transfers as leader operators. */
  lemma KindsAre(cell: nat, was: Peer, now: Peer, last: nat)
    requires last <= 2
    ensures OpKind(Agg(cell, TransferOps(was, now), last)) == CellKind
    ensures OpKind(Single(cell, AddNode(now))) == OpKind(Single(cell, RemoveNode(was))) == CellKind
    ensures OpKind(Single(cell, TransferLeader(now))) == LeaderKind
  {
  }

  function DoOp(op: Operator, cell: Report, expired: bool): (r: (Operator, Option<Action>, bool))
    requires WellFormed(op)
    ensures WellFormed(r.0) && r.0.cell == op.cell && OpKind(r.0) == OpKind(op)
    ensures op.Single? ==> r.0 == op && (r.2 <==> Effective(op.action, cell))
                           && r.1 == if MustAsk(op.action, cell) then Some(op.action) else None
    ensures op.Agg? ==> r.0.Agg? && r.0.ops == op.ops && op.last <= r.0.last
    ensures op.Agg? && expired ==> r == (op, None, true)
    ensures op.Agg? && !expired ==>
              && (forall i :: op.last <= i < r.0.last ==> Effective(op.ops[i], cell))
              && (r.2 <==> r.0.last == |op.ops|)
              && (!r.2 ==> !Effective(op.ops[r.0.last], cell))
              && r.1 == if !r.2 && MustAsk(op.ops[r.0.last], cell) then Some(op.ops[r.0.last]) else None
  {
    match op
    case Single(_, a) => var d := DoAction(a, cell); (op, d.0, d.1)
    case Agg(_, ops, last) =>
      if expired then (op, None, true)
      else var d := DoFrom(ops, last, cell); (op.(last := d.0), d.1, d.2)
  }

  ghost predicate TableOk(opts: map<nat, Operator>)
  {
    forall c :: c in opts ==> opts[c].cell == c && WellFormed(opts[c])
  }

  ghost function OfKind(opts: map<nat, Operator>, k: Kind): set<nat>
    requires TableOk(opts)
  {
    set c | c in opts && OpKind(opts[c]) == k
  }

  function CountOf(counts: map<Kind, nat>, k: Kind): nat
  {
    if k in counts then counts[k] else 0
  }

  /** counts[kind]++ and counts[kind]-- on uint64 values. */
  function Inc(n: nat): nat
  {
    if n >= TWO64 - 1 then 0 else n + 1
  }

  function Dec(n: nat): nat
  {
    if n == 0 then TWO64 - 1 else n - 1
  }

  /** The operator table and the limiter's 64-bit counts. */
  datatype Table = Table(opts: map<nat, Operator>, counts: map<Kind, nat>)

  /** Every limiter count is the number of live operators of that kind. */
  ghost predicate Counted(t: Table)
  {
    TableOk(t.opts) && |t.opts| < TWO64 && forall k :: CountOf(t.counts, k) == |OfKind(t.opts, k)|
  }

  function Add(t: Table, op: Operator): Table
    requires WellFormed(op)
  {
    if op.cell in t.opts then t
    else Table(t.opts[op.cell := op], t.counts[OpKind(op) := Inc(CountOf(t.counts, OpKind(op)))])
  }

  function Remove(t: Table, op: Operator): Table
    requires WellFormed(op)
  {
    Table(t.opts - {op.cell}, t.counts[OpKind(op) := Dec(CountOf(t.counts, OpKind(op)))])
  }

  lemma {:induction false} SubsetSize(a: set<nat>, b: set<nat>)
    requires a <= b
    ensures |a| <= |b|
  {
    if a != {} {
      var x :| x in a;
      SubsetSize(a - {x}, b - {x});
    }
  }

  lemma BoundedKind(opts: map<nat, Operator>, k: Kind)
    requires TableOk(opts)
    ensures |OfKind(opts, k)| <= |opts|
  {
    SubsetSize(OfKind(opts, k), opts.Keys);
    assert |opts| == |opts.Keys|;
  }

  lemma KindAdd(opts: map<nat, Operator>, op: Operator, k: Kind)
    requires TableOk(opts) && WellFormed(op) && op.cell !in opts
    ensures |OfKind(opts[op.cell := op], k)| == |OfKind(opts, k)| + if k == OpKind(op) then 1 else 0
  {
    var more := opts[op.cell := op];
    var now, was := OfKind(more, k), OfKind(opts, k);
    assert op.cell !in was && more[op.cell] == op;
    assert forall c :: c != op.cell ==> (c in now <==> c in was);
    assert op.cell in now <==> k == OpKind(op);
    assert now == if k == OpKind(op) then was + {op.cell} else was;
  }

  lemma KindRemove(opts: map<nat, Operator>, c: nat, k: Kind)
    requires TableOk(opts)
    ensures |OfKind(opts - {c}, k)| == |OfKind(opts, k)| - if c in opts && OpKind(opts[c]) == k then 1 else 0
  {
    assert OfKind(opts - {c}, k) == OfKind(opts, k) - {c};
  }

  lemma AddCounts(t: Table, op: Operator)
    requires Counted(t) && WellFormed(op) && |t.opts| + 1 < TWO64
    ensures Counted(Add(t, op))
  {
    if op.cell !in t.opts {
      BoundedKind(t.opts, OpKind(op));
      forall k
        ensures CountOf(Add(t, op).counts, k) == |OfKind(Add(t, op).opts, k)|
      {
        KindAdd(t.opts, op, k);
      }
    }
  }

  /** Removing keeps the counts exact if and only if the operator is still in the table; otherwise the
      count of its kind is one too low, or wraps around from 0. */
  lemma RemoveCounts(t: Table, op: Operator)
    requires Counted(t) && WellFormed(op) && (op.cell in t.opts ==> OpKind(t.opts[op.cell]) == OpKind(op))
    ensures Counted(Remove(t, op)) <==> op.cell in t.opts
    ensures op.cell !in t.opts ==> CountOf(Remove(t, op).counts, OpKind(op)) == Dec(|OfKind(t.opts, OpKind(op))|)
  {
    if op.cell in t.opts {
      RemovePresent(t, op);
    } else {
      var u, k := Remove(t, op), OpKind(op);
      KindRemove(t.opts, op.cell, k);
      assert CountOf(u.counts, k) == Dec(CountOf(t.counts, k)) != |OfKind(u.opts, k)|;
    }
  }

  lemma RemovePresent(t: Table, op: Operator)
    requires Counted(t) && WellFormed(op) && op.cell in t.opts && OpKind(t.opts[op.cell]) == OpKind(op)
    ensures Counted(Remove(t, op))
  {
    var u := Remove(t, op);
    SubsetSize(u.opts.Keys, t.opts.Keys);
    assert |u.opts| == |u.opts.Keys| && |t.opts| == |t.opts.Keys|;
    assert op.cell in OfKind(t.opts, OpKind(op));
    forall k
      ensures CountOf(u.counts, k) == |OfKind(u.opts, k)|
    {
      KindRemove(t.opts, op.cell, k);
    }
  }

  lemma ReplaceCounts(t: Table, op: Operator)
    requires Counted(t) && WellFormed(op) && op.cell in t.opts && OpKind(t.opts[op.cell]) == OpKind(op)
    ensures Counted(t.(opts := t.opts[op.cell := op]))
  {
    var opts := t.opts[op.cell := op];
    assert opts.Keys == t.opts.Keys;
    assert |opts| == |opts.Keys| && |t.opts| == |t.opts.Keys|;
    forall k
      ensures OfKind(opts, k) == OfKind(t.opts, k)
    {
    }
  }

  class Coordinator {
    var opts: map<nat, Operator>
    var counts: map<Kind, nat>

    function View(): Table
      reads this
    {
      Table(opts, counts)
    }

    constructor ()
      ensures Counted(View()) && opts == map[]
    {
      opts, counts := map[], map[];
    }

    /** At most one operator per cell: a second one is refused. */
    method AddOperator(op: Operator) returns (added: bool)
      requires WellFormed(op)
      modifies this
      ensures added <==> op.cell !in old(opts)
      ensures View() == Add(old(View()), op)
    {
      if op.cell in opts {
        return false;
      }
      counts := counts[OpKind(op) := Inc(CountOf(counts, OpKind(op)))];
      opts := opts[op.cell := op];
      return true;
    }

    method RemoveOperator(op: Operator)
      requires WellFormed(op)
      modifies this
      ensures View() == Remove(old(View()), op)
    {
      counts := counts[OpKind(op) := Dec(CountOf(counts, OpKind(op)))];
      opts := opts - {op.cell};
    }

    /** Runs the cell's operator; when it has finished, or there is none, the replica checker may add one.
        The counts stay exact, other cells keep their operators, and a cell left with an operator by the
        checker was below the limit. */
    method Dispatch(cell: nat, report: Report, expired: bool, checked: Option<Operator>, limit: nat)
      returns (res: Option<Action>)
      requires Counted(View()) && |opts| + 1 < TWO64
      requires checked.Some? ==> WellFormed(checked.value) && checked.value.cell == cell
      modifies this
      ensures Counted(View())
      ensures forall c :: c != cell ==> (c in opts <==> c in old(opts)) && (c in opts ==> opts[c] == old(opts)[c])
      ensures cell in old(opts) && !DoOp(old(opts)[cell], report, expired).2 ==>
                && cell in opts && opts[cell] == DoOp(old(opts)[cell], report, expired).0 && counts == old(counts)
                && res == DoOp(old(opts)[cell], report, expired).1
      ensures cell !in old(opts) || DoOp(old(opts)[cell], report, expired).2 ==>
                if checked.Some? && |OfKind(old(opts) - {cell}, CellKind)| < limit then
                  && cell in opts && opts[cell] == DoOp(checked.value, report, false).0
                  && res == DoOp(checked.value, report, false).1
                else cell !in opts && res == None
    {
      res := None;
      if cell in opts {
        var d := DoOp(opts[cell], report, expired);
        ReplaceCounts(View(), d.0);
        opts := opts[cell := d.0];
        if !d.2 {
          return d.1;
        }
        RemoveCounts(View(), d.0);
        RemoveOperator(d.0);
        assert opts == old(opts) - {cell};
      } else {
        assert opts == old(opts) - {cell};
      }
      assert CountOf(counts, CellKind) == |OfKind(old(opts) - {cell}, CellKind)|;
      if CountOf(counts, CellKind) >= limit {
        return None;
      }
      if checked.Some? {
        AddCounts(View(), checked.value);
        var added := AddOperator(checked.value);
        if added {
          var d := DoOp(checked.value, report, false);
          ReplaceCounts(View(), d.0);
          opts := opts[cell := d.0];
          res := d.1;
        }
      }
    }
  }

  // ---- heartbeats, one at a time, while schedulers add operators ----

  /** held: the finished operator that the running dispatch is about to remove. */
  datatype Sched = Sched(table: Table, held: Option<Operator>)

  datatype Event =
    | Propose(op: Operator)                             // a scheduler, the API or the checker adds an operator
    | Look(cell: nat, report: Report, expired: bool)    // dispatch runs the cell's operator
    | Drop                                              // dispatch removes it when it is finished

  /** Look starts a dispatch and is possible only when the previous dispatch is over. */
  function Next(s: Sched, e: Event): Sched
    requires TableOk(s.table.opts) && (s.held.Some? ==> WellFormed(s.held.value)) && (e.Propose? ==> WellFormed(e.op))
  {
    match e
    case Propose(op) => s.(table := Add(s.table, op))
    case Look(c, report, expired) =>
      if s.held.None? && c in s.table.opts then
        var d := DoOp(s.table.opts[c], report, expired);
        Sched(s.table.(opts := s.table.opts[c := d.0]), if d.2 then Some(d.0) else None)
      else s
    case Drop => if s.held.Some? then Sched(Remove(s.table, s.held.value), None) else s
  }

  ghost predicate SchedInv(s: Sched)
  {
    Counted(s.table)
    && (s.held.Some? ==> WellFormed(s.held.value) && s.held.value.cell in s.table.opts
                         && s.table.opts[s.held.value.cell] == s.held.value)
  }

  lemma NextCounts(s: Sched, e: Event)
    requires SchedInv(s) && (e.Propose? ==> WellFormed(e.op)) && |s.table.opts| + 1 < TWO64
    ensures SchedInv(Next(s, e))
  {
    match e {
      case Propose(op) => AddCounts(s.table, op);
      case Look(c, report, expired) =>
        if s.held.None? && c in s.table.opts {
          ReplaceCounts(s.table, DoOp(s.table.opts[c], report, expired).0);
        }
      case Drop =>
        if s.held.Some? {
          RemoveCounts(s.table, s.held.value);
        }
    }
  }

  ghost predicate Reachable(s: Sched, trace: seq<Sched>, events: seq<Event>)
  {
    && |trace| == |events| + 1 && trace[|events|] == s
    && trace[0] == Sched(Table(map[], map[]), None)
    && forall i :: 0 <= i < |events| ==>
         && SchedOk(trace[i], events[i]) && trace[i + 1] == Next(trace[i], events[i])
  }

  ghost predicate SchedOk(s: Sched, e: Event)
  {
    && TableOk(s.table.opts) && (s.held.Some? ==> WellFormed(s.held.value))
    && (e.Propose? ==> WellFormed(e.op)) && |s.table.opts| + 1 < TWO64
  }

  /** In every reachable state each count equals the live operators of its kind, so none has wrapped. */
  lemma {:induction false} CountsExact(s: Sched, trace: seq<Sched>, events: seq<Event>)
    requires Reachable(s, trace, events)
    ensures SchedInv(s)
    decreases |events|
  {
    if |events| > 0 {
      var n := |events| - 1;
      CountsExact(trace[n], trace[..n + 1], events[..n]);
      NextCounts(trace[n], events[n]);
    }
  }
}
