/** Client requests packed into raft commands: order, kinds, sizes and epoch stamps. */
module ProposeBatches {
  import opened Cells

  datatype Kind = Read | Write | Admin

  /** A request and the cell's epoch at the moment it was pushed. */
  datatype Req = Req(id: nat, kind: Kind, at: Epoch)

  /** A raft command with the epoch stamped into its header when it was made. */
  datatype Command = Command(epoch: Epoch, reqs: seq<Req>)

  function Flatten(cmds: seq<Command>): seq<Req>
  {
    if |cmds| == 0 then [] else Flatten(cmds[..|cmds| - 1]) + cmds[|cmds| - 1].reqs
  }

  lemma {:induction false} FlattenFirst(cmds: seq<Command>)
    requires |cmds| > 0
    ensures Flatten(cmds) == cmds[0].reqs + Flatten(cmds[1..])
  {
    var n := |cmds| - 1;
    if n == 0 {
      assert Flatten(cmds[..0]) == [] && Flatten(cmds[1..]) == [];
    } else {
      FlattenFirst(cmds[..n]);
      assert cmds[..n][1..] == cmds[1..][..n - 1];
      assert Flatten(cmds[1..]) == Flatten(cmds[1..][..n - 1]) + cmds[n].reqs;
    }
  }

  /** Stamped with the epoch its first request saw, requests of one kind, an admin request alone, at most `limit` of them unless the limit is 0, and
      none pushed under an older epoch than the stamp. */
  predicate CommandOk(c: Command, limit: nat)
  {
    && |c.reqs| > 0 && c.epoch == c.reqs[0].at
    && (forall i :: 0 <= i < |c.reqs| ==> c.reqs[i].kind == c.reqs[0].kind && EpochLe(c.epoch, c.reqs[i].at))
    && (c.reqs[0].kind == Admin ==> |c.reqs| == 1)
    && (limit > 0 ==> |c.reqs| <= limit)
  }

  predicate AllOk(cmds: seq<Command>, limit: nat)
  {
    forall i :: 0 <= i < |cmds| ==> CommandOk(cmds[i], limit)
  }

  /** A command is closed only by a request of another kind, an admin request or a full batch. */
  predicate Packed(cmds: seq<Command>, limit: nat)
    requires AllOk(cmds, limit)
  {
    forall i :: 0 <= i < |cmds| - 1 && cmds[i].reqs[0].kind == cmds[i + 1].reqs[0].kind != Admin ==> |cmds[i].reqs| == limit
  }

  /** Every waiting command is well formed and packed, and lastKind is the kind of the last one. */
  predicate Tidy(cmds: seq<Command>, lastKind: Kind, limit: nat)
  {
    AllOk(cmds, limit) && Packed(cmds, limit) && (|cmds| > 0 ==> lastKind == cmds[|cmds| - 1].reqs[0].kind)
  }

  /** The epoch is at least the stamp of every command. */
  predicate StampedBy(cmds: seq<Command>, at: Epoch)
  {
    forall i :: 0 <= i < |cmds| ==> EpochLe(cmds[i].epoch, at)
  }

  /** The request joins the last command. */
  function Join(cmds: seq<Command>, req: Req): seq<Command>
    requires |cmds| > 0
  {
    var n := |cmds| - 1;
    cmds[..n] + [cmds[n].(reqs := cmds[n].reqs + [req])]
  }

  lemma NewKeeps(cmds: seq<Command>, lastKind: Kind, req: Req, limit: nat)
    requires Tidy(cmds, lastKind, limit) && StampedBy(cmds, req.at)
    requires |cmds| == 0 || req.kind == Admin || lastKind != req.kind || |cmds[|cmds| - 1].reqs| == limit
    ensures var now := cmds + [Command(req.at, [req])];
            Tidy(now, req.kind, limit) && StampedBy(now, req.at) && Flatten(now) == Flatten(cmds) + [req]
  {
    var now := cmds + [Command(req.at, [req])];
    assert now[..|cmds|] == cmds;
    assert CommandOk(now[|cmds|], limit);
  }

  lemma JoinKeeps(cmds: seq<Command>, lastKind: Kind, req: Req, limit: nat)
    requires Tidy(cmds, lastKind, limit) && StampedBy(cmds, req.at) && |cmds| > 0
    requires lastKind == req.kind != Admin && |cmds[|cmds| - 1].reqs| != limit
    ensures var now := Join(cmds, req);
            Tidy(now, req.kind, limit) && StampedBy(now, req.at) && Flatten(now) == Flatten(cmds) + [req]
  {
    var n := |cmds| - 1;
    var now := Join(cmds, req);
    assert now[..n] == cmds[..n];
    assert forall i :: 0 <= i < n ==> now[i] == cmds[i];
    assert CommandOk(cmds[n], limit) && CommandOk(now[n], limit);
  }

  class ProposeBatch {
    const limit: nat
    var lastKind: Kind
    var cmds: seq<Command>
    ghost var pushed: seq<Req>
    ghost var popped: seq<Req>

    /** Nothing is lost, doubled or reordered, and every waiting command is well formed. */
    ghost predicate Valid()
      reads this
    {
      pushed == popped + Flatten(cmds) && Tidy(cmds, lastKind, limit)
    }

    constructor (limit: nat)
      ensures Valid() && this.limit == limit && pushed == popped == []
    {
      this.limit, lastKind, cmds, pushed, popped := limit, Read, [], [], [];
    }

    /** The epoch of the cell never goes down, so it is at least the stamp of every command made before. */
    method Push(req: Req)
      requires Valid() && StampedBy(cmds, req.at)
      modifies this
      ensures Valid() && pushed == old(pushed) + [req] && popped == old(popped)
      ensures StampedBy(cmds, req.at)
    {
      if |cmds| == 0 || req.kind == Admin || lastKind != req.kind || |cmds[|cmds| - 1].reqs| == limit {
        NewKeeps(cmds, lastKind, req, limit);
        cmds := cmds + [Command(req.at, [req])];
      } else {
        JoinKeeps(cmds, lastKind, req, limit);
        cmds := Join(cmds, req);
      }
      pushed := pushed + [req];
      lastKind := req.kind;
    }

    method Pop() returns (c: Option<Command>)
      requires Valid()
      modifies this
      ensures Valid() && pushed == old(pushed)
      ensures old(cmds) == [] ==> c == None && cmds == []
      ensures old(cmds) != [] ==> c == Some(old(cmds)[0]) && cmds == old(cmds)[1..] && CommandOk(c.value, limit)
      ensures popped == old(popped) + if c.Some? then c.value.reqs else []
    {
      if |cmds| == 0 {
        return None;
      }
      FlattenFirst(cmds);
      c := Some(cmds[0]);
      popped := popped + cmds[0].reqs;
      cmds := cmds[1..];
    }
  }
}
