/** Batch allocation of cluster-wide ids over a compare-and-swap register, and document ids on top. */
module IdAllocator {
  import opened Cells
  import opened Words

  const BATCH: nat := 1000

  /** The register as GetID reports it: a missing key reads as 0. */
  function ReadValue(reg: Option<nat>): nat
  {
    if reg.Some? then reg.value else 0
  }

  /** The guard of the transaction that generate issues after reading `value`: CreateID asks for a
      missing key, UpdateID for the value read; both ask for the writer to be the leader. */
  predicate TxnHolds(reg: Option<nat>, isLeader: bool, value: nat)
  {
    isLeader && if value == 0 then reg.None? else reg == Some(value)
  }

  /** One server's allocator: ids base + 1 .. end are still to be handed out. */
  datatype Alloc = Alloc(base: nat, end: nat)

  function Refill(max: nat): Alloc
  {
    Alloc((max - BATCH) % TWO64, max)
  }

  function Take(a: Alloc): Alloc
  {
    a.(base := (a.base + 1) % TWO64)
  }

  /** The shared etcd register. */
  class IdStore {
    var reg: Option<nat>
    var leader: string

    constructor (leader: string)
      ensures reg == None && this.leader == leader
    {
      this.reg, this.leader := None, leader;
    }

    method GetID() returns (value: nat)
      ensures value == ReadValue(reg)
    {
      match reg {
        case None => return 0;
        case Some(v) => return v;
      }
    }

    method CreateID(signature: string, value: nat) returns (ok: bool)
      modifies this
      ensures leader == old(leader)
      ensures ok <==> TxnHolds(old(reg), old(leader) == signature, 0)
      ensures reg == if ok then Some(value) else old(reg)
    {
      ok := reg.None? && leader == signature;
      if ok {
        reg := Some(value);
      }
    }

    method UpdateID(signature: string, was: nat, value: nat) returns (ok: bool)
      requires was != 0
      modifies this
      ensures leader == old(leader)
      ensures ok <==> TxnHolds(old(reg), old(leader) == signature, was)
      ensures reg == if ok then Some(value) else old(reg)
    {
      ok := reg == Some(was) && leader == signature;
      if ok {
        reg := Some(value);
      }
    }
  }

  class IdAllocator {
    const store: IdStore
    const signature: string
    var base: nat
    var end: nat

    constructor (store: IdStore, signature: string)
      ensures this.store == store && this.signature == signature && base == end == 0
    {
      this.store, this.signature, base, end := store, signature, 0, 0;
    }

    /** One call that no other server interrupts. */
    method NewID() returns (id: Option<nat>)
      modifies this, store
      ensures old(base) != old(end) ==>
                id == Some(base) && Alloc(base, end) == Take(Alloc(old(base), old(end))) && store.reg == old(store.reg)
      ensures old(base) == old(end) ==>
                (id.Some? <==> TxnHolds(old(store.reg), old(store.leader) == signature, ReadValue(old(store.reg))))
      ensures id.None? ==> base == old(base) && end == old(end) && store.reg == old(store.reg)
      ensures old(base) == old(end) && id.Some? ==>
                var max := (ReadValue(old(store.reg)) + BATCH) % TWO64;
                id == Some(base) && Alloc(base, end) == Take(Refill(max)) && store.reg == Some(max)
      ensures old(base) != old(end) && old(base) + 1 < TWO64 ==> id == Some(old(base) + 1) && end == old(end)
      ensures old(base) == old(end) && id.Some? && ReadValue(old(store.reg)) + BATCH < TWO64 ==>
                var v := ReadValue(old(store.reg)); id == Some(v + 1) && end == v + BATCH && store.reg == Some(v + BATCH)
    {
      if base == end {
        var value := store.GetID();
        var max := (value + BATCH) % TWO64;
        var ok;
        if value == 0 {
          ok := store.CreateID(signature, max);
        } else {
          ok := store.UpdateID(signature, value, max);
        }
        if !ok {
          return None;
        }
        end := max;
        base := (end - BATCH) % TWO64;
      }
      base := (base + 1) % TWO64;
      return Some(base);
    }
  }

  /** SliceWidth is a power of two, so masking with SliceWidth - 1 is taking the remainder. */
  const SLICE: nat := 1048576

  class DocIds {
    var nextDocID: nat

    constructor ()
      ensures nextDocID == 0
    {
      nextDocID := 0;
    }

    /** rpc is the id that the placement driver answers with, or None when the call fails. */
    method AllocateDocID(rpc: Option<nat>) returns (doc: Option<nat>)
      modifies this
      ensures doc.None? <==> old(nextDocID) % SLICE == 0 && rpc.None?
      ensures doc.None? ==> nextDocID == old(nextDocID)
      ensures doc.Some? ==> doc.value == DocOf(old(nextDocID), if rpc.Some? then rpc.value else 0)
                            && nextDocID == (doc.value + 1) % TWO64
      ensures old(nextDocID) % SLICE != 0 ==> doc == Some(old(nextDocID))
      ensures old(nextDocID) % SLICE == 0 && rpc.Some? && rpc.value * SLICE < TWO64 ==> doc == Some(rpc.value * SLICE)
    {
      if nextDocID % SLICE == 0 {
        if rpc.None? {
          return None;
        }
        var d := rpc.value * SLICE % TWO64;
        nextDocID := (d + 1) % TWO64;
        return Some(d);
      }
      var d := nextDocID;
      nextDocID := (nextDocID + 1) % TWO64;
      return Some(d);
    }
  }

  /** The document id handed out when nextDocID is `next` and a fresh id, if one is needed, is `id`. */
  function DocOf(next: nat, id: nat): nat
  {
    if next % SLICE == 0 then id * SLICE % TWO64 else next
  }
}
