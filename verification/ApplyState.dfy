/** The apply state of a cell and the compaction that a log-GC command makes in it. */
module ApplyStates {

  /** Every log starts here. */
  const INIT_INDEX: nat := 5
  const INIT_TERM: nat := 5

  /** Applied index and truncated position. */
  datatype Apply = Apply(applied: nat, trunc: nat, truncTerm: nat)

  /** Truncated to index; firstIndex was the first index before. */
  datatype GC = GC(index: nat, firstIndex: nat)

  datatype Compaction = NoNeed | Refused | Truncated(apply: Apply, gc: GC)

  /** doExecRaftGC with compactRaftLog's two refusals. */
  function Compact(a: Apply, index: nat, term: nat): Compaction
  {
    var firstIndex := a.trunc + 1;
    if index <= firstIndex then NoNeed
    else if term == 0 || index <= a.trunc || index > a.applied then Refused
    else Truncated(a.(trunc := index, truncTerm := term), GC(index, firstIndex))
  }

  /** A compaction is not needed up to the first index, is refused without a term or beyond the applied index,
      and otherwise moves the truncated position and nothing else. */
  lemma CompactCases(a: Apply, index: nat, term: nat)
    ensures Compact(a, index, term).NoNeed? <==> index <= a.trunc + 1
    ensures Compact(a, index, term).Refused? <==> a.trunc + 1 < index && (term == 0 || a.applied < index)
    ensures Compact(a, index, term).Truncated? ==> Compact(a, index, term) == Truncated(Apply(a.applied, index, term), GC(index, a.trunc + 1))
  {
  }
}
