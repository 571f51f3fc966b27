/** All interleavings of several placement-driver servers, changing leaders, and document-id users. */
module IdProtocol {
  import opened Cells
  import opened IdAllocator
  import opened Words

  datatype Phase = Idle | Reading(value: nat)

  datatype Server = Server(alloc: Alloc, phase: Phase)

  /** issued: every id handed out so far; taken: the indices of those a peer used for document ids;
      peers: nextDocID per peer; docs: every document id handed out so far. */
  datatype State = State(reg: Option<nat>, leader: nat, servers: map<nat, Server>, issued: seq<nat>,
                         taken: set<nat>, peers: map<nat, nat>, docs: seq<nat>)

  const INITIAL := State(None, 0, map[], [], {}, map[], [])

  datatype Step =
    | Start(p: nat)                     // a server starts, or restarts with an empty allocator
    | Lead(p: nat)                      // p becomes the leader
    | Read(p: nat)                      // GetID inside generate
    | Commit(p: nat, answered: bool)    // CreateID or UpdateID; the answer may be lost
    | Orphan(value: nat)                // a transaction of a crashed leader reaches etcd late
    | Hand(p: nat)                      // newID with ids left in the batch
    | PeerStart(q: nat)
    | Doc(q: nat, k: nat)               // AllocateDocID on peer q; a fresh id is the k-th issued one

  function Next(s: State, t: Step): State
  {
    match t
    case Start(p) => s.(servers := s.servers[p := Server(Alloc(0, 0), Idle)])
    case Lead(p) => s.(leader := p)
    case Read(p) =>
      if p in s.servers && s.servers[p].alloc.base == s.servers[p].alloc.end then
        s.(servers := s.servers[p := s.servers[p].(phase := Reading(ReadValue(s.reg)))])
      else s
    case Commit(p, answered) =>
      if p in s.servers && s.servers[p].phase.Reading? then
        var value := s.servers[p].phase.value;
        var idle := s.servers[p].(phase := Idle);
        if TxnHolds(s.reg, s.leader == p, value) then
          var max := (value + BATCH) % TWO64;
          if answered then
            var alloc := Take(Refill(max));
            s.(reg := Some(max), servers := s.servers[p := Server(alloc, Idle)], issued := s.issued + [alloc.base])
          else s.(reg := Some(max), servers := s.servers[p := idle])
        else s.(servers := s.servers[p := idle])
      else s
    case Orphan(value) =>
      if TxnHolds(s.reg, true, value) then s.(reg := Some((value + BATCH) % TWO64)) else s
    case Hand(p) =>
      if p in s.servers && s.servers[p].phase.Idle? && s.servers[p].alloc.base != s.servers[p].alloc.end then
        var alloc := Take(s.servers[p].alloc);
        s.(servers := s.servers[p := Server(alloc, Idle)], issued := s.issued + [alloc.base])
      else s
    case PeerStart(q) => s.(peers := s.peers[q := 0])
    case Doc(q, k) =>
      if q !in s.peers then s
      else if s.peers[q] % SLICE != 0 then GiveDoc(s, q, 0)
      else if k < |s.issued| && k !in s.taken then GiveDoc(s.(taken := s.taken + {k}), q, s.issued[k])
      else s
  }

  function GiveDoc(s: State, q: nat, id: nat): State
    requires q in s.peers
  {
    var doc := DocOf(s.peers[q], id);
    s.(peers := s.peers[q := (doc + 1) % TWO64], docs := s.docs + [doc])
  }

  /** No 64-bit counter overflows in this step. */
  predicate Below(s: State, t: Step)
  {
    match t
    case Commit(_, _) => ReadValue(s.reg) + BATCH < TWO64
    case Orphan(_) => ReadValue(s.reg) + BATCH < TWO64
    case Doc(_, k) => k < |s.issued| ==> s.issued[k] * SLICE < TWO64
    case _ => true
  }

  function Run(steps: seq<Step>): State
  {
    if |steps| == 0 then INITIAL else Next(Run(steps[..|steps| - 1]), steps[|steps| - 1])
  }

  predicate RunBelow(steps: seq<Step>)
  {
    forall i :: 0 <= i < |steps| ==> Below(Run(steps[..i]), steps[i])
  }

  ghost predicate Distinct(a: seq<nat>)
  {
    forall i, j :: 0 <= i < j < |a| ==> a[i] != a[j]
  }

  predicate Pending(a: Alloc, x: nat)
  {
    a.base < x <= a.end
  }

  ghost predicate IdInv(s: State)
  {
    && (s.reg.Some? ==> 0 < s.reg.value < TWO64)
    && (forall p :: p in s.servers ==> s.servers[p].alloc.base <= s.servers[p].alloc.end <= ReadValue(s.reg))
    && (forall i :: 0 <= i < |s.issued| ==> 1 <= s.issued[i] <= ReadValue(s.reg))
    && Distinct(s.issued)
    && (forall p, i :: p in s.servers && 0 <= i < |s.issued| ==> !Pending(s.servers[p].alloc, s.issued[i]))
    && (forall p, q, x :: p in s.servers && q in s.servers && p != q ==>
                            !(Pending(s.servers[p].alloc, x) && Pending(s.servers[q].alloc, x)))
  }

  /** The register may grow, and servers may change phase. */
  lemma RaiseKeeps(s: State, u: State)
    requires IdInv(s) && u.issued == s.issued && u.servers.Keys == s.servers.Keys
    requires forall p :: p in s.servers ==> u.servers[p].alloc == s.servers[p].alloc
    requires ReadValue(s.reg) <= ReadValue(u.reg) && (u.reg.Some? ==> 0 < u.reg.value < TWO64)
    ensures IdInv(u)
  {
  }

  /** Server p hands out x and keeps the ids up to `end`: ids it held, or ids above the old register. */
  lemma IssueKeeps(s: State, u: State, p: nat, x: nat, end: nat)
    requires IdInv(s) && p in s.servers
    requires 1 <= x <= end <= ReadValue(u.reg) && u.reg.Some? && 0 < u.reg.value < TWO64
    requires ReadValue(s.reg) <= ReadValue(u.reg)
    requires x > ReadValue(s.reg) || (Pending(s.servers[p].alloc, x) && end == s.servers[p].alloc.end)
    requires u.servers == s.servers[p := Server(Alloc(x, end), Idle)] && u.issued == s.issued + [x]
    ensures IdInv(u)
  {
    forall q, y | q in s.servers && q != p && Pending(Alloc(x, end), y)
      ensures !Pending(s.servers[q].alloc, y) && !Pending(s.servers[q].alloc, x)
    {
      if x <= ReadValue(s.reg) {
        assert Pending(s.servers[p].alloc, y);
      }
    }
    if x <= ReadValue(s.reg) {
      assert forall q :: q in s.servers && q != p ==> !Pending(s.servers[q].alloc, x);
    }
    forall i | 0 <= i < |s.issued|
      ensures s.issued[i] != x && !Pending(Alloc(x, end), s.issued[i])
    {
      assert !Pending(s.servers[p].alloc, s.issued[i]);
    }
  }

  lemma SmallMod(x: nat)
    requires x < TWO64
    ensures x % TWO64 == x
  {
  }

  /** A won transaction reserves ids above everything reserved before. */
  lemma CommitKeeps(s: State, p: nat, answered: bool)
    requires IdInv(s) && Below(s, Commit(p, answered))
    ensures IdInv(Next(s, Commit(p, answered)))
  {
    var u := Next(s, Commit(p, answered));
    if p in s.servers && s.servers[p].phase.Reading? && TxnHolds(s.reg, s.leader == p, s.servers[p].phase.value) {
      var v := ReadValue(s.reg);
      SmallMod(v + BATCH);
      SmallMod(v);
      SmallMod(v + 1);
      if answered {
        IssueKeeps(s, u, p, v + 1, v + BATCH);
      } else {
        RaiseKeeps(s, u);
      }
    } else {
      RaiseKeeps(s, u);
    }
  }

  /** Handing out the next id of a reserved batch. */
  lemma HandKeeps(s: State, p: nat)
    requires IdInv(s)
    ensures IdInv(Next(s, Hand(p)))
  {
    var u := Next(s, Hand(p));
    if u != s {
      var a := s.servers[p].alloc;
      SmallMod(a.base + 1);
      IssueKeeps(s, u, p, a.base + 1, a.end);
    }
  }

  lemma IdStep(s: State, t: Step)
    requires IdInv(s) && Below(s, t)
    ensures IdInv(Next(s, t))
  {
    var u := Next(s, t);
    match t {
      case Start(p) =>
      case Commit(p, answered) => CommitKeeps(s, p, answered);
      case Hand(p) => HandKeeps(s, p);
      case Orphan(value) =>
        SmallMod(ReadValue(s.reg) + BATCH);
        RaiseKeeps(s, u);
      case _ => RaiseKeeps(s, u);
    }
  }

  /** The id has been taken by some peer. */
  ghost predicate Taken(s: State, x: nat)
  {
    exists k :: k in s.taken && k < |s.issued| && s.issued[k] == x
  }

  /** Peer q is in the middle of slice x. */
  predicate Filling(s: State, q: nat, x: nat)
  {
    q in s.peers && s.peers[q] % SLICE != 0 && s.peers[q] / SLICE == x
  }

  ghost predicate DocInv(s: State)
  {
    && (forall i :: 0 <= i < |s.docs| ==> Taken(s, s.docs[i] / SLICE))
    && Distinct(s.docs)
    && (forall q, x :: Filling(s, q, x) ==> Taken(s, x))
    && (forall q, i :: 0 <= i < |s.docs| && Filling(s, q, s.docs[i] / SLICE) ==> s.docs[i] < s.peers[q])
    && (forall q, r, x :: Filling(s, q, x) && Filling(s, r, x) ==> q == r)
  }

  /** Steps that hand out no document id and start no peer leave the document side alone. */
  lemma TakenGrows(s: State, u: State)
    requires DocInv(s) && s.taken <= u.taken && s.issued <= u.issued && s.peers == u.peers && s.docs == u.docs
    ensures DocInv(u)
  {
    forall x | Taken(s, x)
      ensures Taken(u, x)
    {
      var k :| k in s.taken && k < |s.issued| && s.issued[k] == x;
      assert u.issued[k] == x;
    }
    assert forall q, x :: Filling(u, q, x) <==> Filling(s, q, x);
  }

  lemma PeerStartKeeps(s: State, q: nat)
    requires DocInv(s)
    ensures DocInv(Next(s, PeerStart(q)))
  {
    var u := Next(s, PeerStart(q));
    assert forall x :: Taken(s, x) ==> Taken(u, x);
    assert forall r, x :: Filling(u, r, x) ==> Filling(s, r, x);
  }

  /** Handing out document d to q, when its slice x is taken and no other peer's, and d is new in it. */
  lemma GiveKeeps(s: State, q: nat, id: nat)
    requires DocInv(s) && q in s.peers && s.peers[q] < TWO64
    requires s.peers[q] % SLICE == 0 ==> id * SLICE < TWO64 && Taken(s, id) && Unused(s, id)
    ensures DocInv(GiveDoc(s, q, id))
  {
    var doc := DocOf(s.peers[q], id);
    var x := doc / SLICE;
    var u := GiveDoc(s, q, id);
    DocSlice(s.peers[q], id);
    assert s.peers[q] % SLICE != 0 ==> Filling(s, q, x);
    assert forall y :: Taken(s, y) ==> Taken(u, y);
    assert forall r, y :: r != q ==> (Filling(u, r, y) <==> Filling(s, r, y));
    assert forall y :: Filling(u, q, y) ==> y == x && u.peers[q] == doc + 1;
    assert forall i :: 0 <= i < |s.docs| && s.docs[i] / SLICE == x ==> s.docs[i] < doc;
    assert forall r :: r != q ==> !Filling(s, r, x);
  }

  /** The document id lies in the slice being filled or in the fresh one; a slice's last id leaves it. */
  lemma DocSlice(next: nat, id: nat)
    requires next < TWO64 && (next % SLICE == 0 ==> id * SLICE < TWO64)
    ensures var doc := DocOf(next, id);
            && doc < TWO64
            && doc / SLICE == (if next % SLICE == 0 then id else next / SLICE)
            && ((doc + 1) % TWO64 % SLICE != 0 ==>
                  (doc + 1) % TWO64 == doc + 1 && (doc + 1) / SLICE == doc / SLICE)
  {
  }

  /** No document was taken from slice x and no peer is filling it. */
  ghost predicate Unused(s: State, x: nat)
  {
    (forall i :: 0 <= i < |s.docs| ==> s.docs[i] / SLICE != x) && (forall r :: !Filling(s, r, x))
  }

  ghost predicate Inv(s: State)
  {
    IdInv(s) && DocInv(s) && forall q :: q in s.peers ==> s.peers[q] < TWO64
  }

  lemma DocKeeps(s: State, q: nat, k: nat)
    requires Inv(s) && Below(s, Doc(q, k))
    ensures DocInv(Next(s, Doc(q, k)))
  {
    if q in s.peers {
      if s.peers[q] % SLICE != 0 {
        GiveKeeps(s, q, 0);
      } else if k < |s.issued| && k !in s.taken {
        var u := s.(taken := s.taken + {k});
        assert !Taken(s, s.issued[k]);
        TakenGrows(s, u);
        assert forall r, x :: Filling(u, r, x) <==> Filling(s, r, x);
        assert Taken(u, s.issued[k]);
        GiveKeeps(u, q, s.issued[k]);
      }
    }
  }

  lemma StepKeeps(s: State, t: Step)
    requires Inv(s) && Below(s, t)
    ensures Inv(Next(s, t))
  {
    IdStep(s, t);
    match t {
      case Doc(q, k) => DocKeeps(s, q, k);
      case PeerStart(q) => PeerStartKeeps(s, q);
      case _ => TakenGrows(s, Next(s, t));
    }
  }

  lemma {:induction false} RunInv(steps: seq<Step>)
    requires RunBelow(steps)
    ensures Inv(Run(steps))
  {
    if |steps| > 0 {
      var n := |steps| - 1;
      assert forall i :: 0 <= i <= n ==> steps[..n][..i] == steps[..i];
      RunInv(steps[..n]);
      StepKeeps(Run(steps[..n]), steps[n]);
    }
  }

  /** Over every run, no id is handed out twice, and document ids are pairwise distinct and never 0. */
  lemma IdsUnique(steps: seq<Step>)
    requires RunBelow(steps)
    ensures Distinct(Run(steps).issued) && 0 !in Run(steps).issued
    ensures Distinct(Run(steps).docs) && 0 !in Run(steps).docs
  {
    RunInv(steps);
  }

  /** A won transaction whose answer arrives hands out the first id above the register and leaves the rest of
      the batch; with ids left the next one is handed out; a document id is the next of its slice or the
      first of a fresh one. */
  lemma StepIssues(s: State, t: Step)
    requires Inv(s) && Below(s, t)
    ensures var u := Next(s, t);
            match t
            case Commit(p, answered) =>
              answered && p in s.servers && s.servers[p].phase.Reading? && TxnHolds(s.reg, s.leader == p, s.servers[p].phase.value) ==>
                var v := ReadValue(s.reg);
                && u.issued == s.issued + [v + 1] && u.reg == Some(v + BATCH)
                && u.servers == s.servers[p := Server(Alloc(v + 1, v + BATCH), Idle)]
            case Hand(p) =>
              p in s.servers && s.servers[p].phase.Idle? && s.servers[p].alloc.base != s.servers[p].alloc.end ==>
                var a := s.servers[p].alloc;
                u.issued == s.issued + [a.base + 1] && u.servers == s.servers[p := Server(Alloc(a.base + 1, a.end), Idle)] && u.reg == s.reg
            case Doc(q, k) =>
              q in s.peers && (s.peers[q] % SLICE != 0 || (k < |s.issued| && k !in s.taken)) ==>
                u.docs == s.docs + [if s.peers[q] % SLICE != 0 then s.peers[q] else s.issued[k] * SLICE]
            case Read(p) =>
              && u.issued == s.issued && u.docs == s.docs && u.reg == s.reg
              && (p in s.servers && s.servers[p].alloc.base == s.servers[p].alloc.end ==>
                    u.servers == s.servers[p := Server(s.servers[p].alloc, Reading(ReadValue(s.reg)))])
            case _ => u.issued == s.issued && u.docs == s.docs
  {
    match t {
      case Commit(p, answered) =>
        if p in s.servers && s.servers[p].phase.Reading? && TxnHolds(s.reg, s.leader == p, s.servers[p].phase.value) {
          var v := ReadValue(s.reg);
          SmallMod(v + BATCH);
          SmallMod(v);
          SmallMod(v + 1);
        }
      case Hand(p) =>
        if p in s.servers {
          var a := s.servers[p].alloc;
          if a.base < a.end {
            SmallMod(a.base + 1);
          }
        }
      case Doc(q, k) =>
        if k < |s.issued| {
          SmallMod(s.issued[k] * SLICE);
        }
      case _ =>
    }
  }

  /** A leader out of ids that reads the register and commits before anyone else gets the next batch. */
  lemma RefillWorks(s: State, p: nat)
    requires Inv(s) && p in s.servers && s.leader == p && s.servers[p].alloc.base == s.servers[p].alloc.end
    requires ReadValue(s.reg) + BATCH < TWO64
    ensures var u := Next(Next(s, Read(p)), Commit(p, true)); var v := ReadValue(s.reg);
            u.issued == s.issued + [v + 1] && u.reg == Some(v + BATCH) && u.servers[p] == Server(Alloc(v + 1, v + BATCH), Idle)
  {
    var t := Next(s, Read(p));
    StepIssues(s, Read(p));
    StepKeeps(s, Read(p));
    StepIssues(t, Commit(p, true));
  }

  /** A server that hands out k more ids of its batch. */
  function Hands(s: State, p: nat, k: nat): State
  {
    if k == 0 then s else Next(Hands(s, p, k - 1), Hand(p))
  }

  /** Server p can hand out k more ids. */
  predicate CanHand(s: State, p: nat, k: nat)
  {
    p in s.servers && s.servers[p].phase.Idle?
    && s.servers[p].alloc.base + k <= s.servers[p].alloc.end && s.servers[p].alloc.end < TWO64
  }

  lemma HandIssues(s: State, p: nat)
    requires CanHand(s, p, 1)
    ensures var u := Next(s, Hand(p)); var a := s.servers[p].alloc;
            u.issued == s.issued + [a.base + 1] && u.servers == s.servers[p := Server(Alloc(a.base + 1, a.end), Idle)]
  {
    SmallMod(s.servers[p].alloc.base + 1);
  }

  lemma {:induction false} HandsDense(s: State, p: nat, k: nat)
    requires CanHand(s, p, k)
    ensures var u := Hands(s, p, k); var a := s.servers[p].alloc;
            && p in u.servers && u.servers[p] == Server(Alloc(a.base + k, a.end), Idle)
            && |u.issued| == |s.issued| + k && u.issued[..|s.issued|] == s.issued
            && forall i :: |s.issued| <= i < |u.issued| ==> u.issued[i] == a.base + 1 + (i - |s.issued|)
  {
    if k > 0 {
      HandsDense(s, p, k - 1);
      HandIssues(Hands(s, p, k - 1), p);
    }
  }

  /** The ids of a batch are handed out one after the other, without a gap. */
  lemma BatchIsDense(s: State, p: nat, k: nat)
    requires Inv(s) && p in s.servers && s.servers[p].phase.Idle?
    requires s.servers[p].alloc.base + k <= s.servers[p].alloc.end
    ensures var u := Hands(s, p, k); var a := s.servers[p].alloc;
            && p in u.servers && u.servers[p] == Server(Alloc(a.base + k, a.end), Idle)
            && |u.issued| == |s.issued| + k && u.issued[..|s.issued|] == s.issued
            && forall i :: |s.issued| <= i < |u.issued| ==> u.issued[i] == a.base + 1 + (i - |s.issued|)
  {
    HandsDense(s, p, k);
  }
}
