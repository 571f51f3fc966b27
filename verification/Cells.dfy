/** Cell metadata: peers, epochs and key ranges. */
module Cells {
  import opened Keys

  datatype Option<+T> = None | Some(value: T)

  datatype Peer = Peer(id: nat, storeId: nat)

  datatype Epoch = Epoch(confVer: nat, cellVer: nat)

  datatype Cell = Cell(id: nat, start: Key, end: Key, epoch: Epoch, peers: seq<Peer>)

  /** An empty `end` stands for positive infinity. */
  predicate Contains(c: Cell, key: Key)
  {
    Le(c.start, key) && (|c.end| == 0 || Lt(key, c.end))
  }

  predicate NonEmpty(c: Cell)
  {
    |c.end| == 0 || Lt(c.start, c.end)
  }

  /** The ranges of `a` and `b` share a key. */
  ghost predicate Overlap(a: Cell, b: Cell)
  {
    exists k: Key :: Contains(a, k) && Contains(b, k)
  }

  /** Every key of `a` lies below every key of `b`. */
  predicate Before(a: Cell, b: Cell)
  {
    |a.end| > 0 && Le(a.end, b.start)
  }

  lemma OverlapIffNotBefore(a: Cell, b: Cell)
    requires NonEmpty(a) && NonEmpty(b)
    ensures Overlap(a, b) <==> !Before(a, b) && !Before(b, a)
  {
    OrderLaws();
    if !Before(a, b) && !Before(b, a) {
      var k := if Lt(a.start, b.start) then b.start else a.start;
      assert Contains(a, k) && Contains(b, k);
    }
  }

  /** epoch is older than `check` in some component */
  predicate EpochStale(epoch: Epoch, check: Epoch)
  {
    epoch.cellVer < check.cellVer || epoch.confVer < check.confVer
  }

  predicate EpochLe(a: Epoch, b: Epoch)
  {
    a.cellVer <= b.cellVer && a.confVer <= b.confVer
  }

  function StoreIds(peers: seq<Peer>): (r: seq<nat>)
    ensures |r| == |peers|
    ensures forall i :: 0 <= i < |r| ==> r[i] == peers[i].storeId
  {
    seq(|peers|, i requires 0 <= i < |peers| => peers[i].storeId)
  }

  predicate OnStore(peers: seq<Peer>, store: nat)
  {
    exists i :: 0 <= i < |peers| && peers[i].storeId == store
  }

  function WithoutStore(peers: seq<Peer>, store: nat): seq<Peer>
  {
    if |peers| == 0 then []
    else
      var n := |peers| - 1;
      WithoutStore(peers[..n], store) + (if peers[n].storeId != store then [peers[n]] else [])
  }

  /** Exactly the peers on that store are gone. */
  lemma {:induction false} WithoutStoreIs(peers: seq<Peer>, store: nat)
    ensures forall p :: p in WithoutStore(peers, store) <==> p in peers && p.storeId != store
  {
    if |peers| > 0 {
      var n := |peers| - 1;
      WithoutStoreIs(peers[..n], store);
      assert peers == peers[..n] + [peers[n]];
    }
  }

  /** One peer per store: the peer on the store is cut out and the others keep their order. */
  lemma {:induction false} WithoutStoreCutsOut(a: seq<Peer>, p: Peer, b: seq<Peer>)
    requires !OnStore(a, p.storeId) && !OnStore(b, p.storeId)
    ensures WithoutStore(a + [p] + b, p.storeId) == a + b
  {
    var all := a + [p] + b;
    if |b| == 0 {
      assert all[..|a|] == a;
      WithoutStoreNone(a, p.storeId);
      assert WithoutStore(all, p.storeId) == WithoutStore(a, p.storeId) + [];
    } else {
      var n := |b| - 1;
      assert all[..|all| - 1] == a + [p] + b[..n];
      assert !OnStore(b[..n], p.storeId);
      WithoutStoreCutsOut(a, p, b[..n]);
      assert b == b[..n] + [b[n]];
    }
  }

  lemma {:induction false} WithoutStoreNone(peers: seq<Peer>, store: nat)
    requires !OnStore(peers, store)
    ensures WithoutStore(peers, store) == peers
  {
    if |peers| > 0 {
      var n := |peers| - 1;
      assert peers == peers[..n] + [peers[n]];
      assert !OnStore(peers[..n], store);
      WithoutStoreNone(peers[..n], store);
    }
  }
}
