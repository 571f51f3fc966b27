/** peerStorage's log methods as code, and the leader's choice of a compaction index. */
module RaftLogStores {
  import opened Cells
  import opened Words
  import opened ApplyStates
  import opened RaftLogs

  function Total(ents: seq<Entry>): nat
  {
    if |ents| == 0 then 0 else Total(ents[..|ents| - 1]) + ents[|ents| - 1].size
  }

  lemma {:induction false} TotalMonotone(ents: seq<Entry>, j: nat, k: nat)
    requires j <= k <= |ents|
    ensures Total(ents[..j]) <= Total(ents[..k])
  {
    if j < k {
      TotalMonotone(ents, j, k - 1);
      assert ents[..k][..k - 1] == ents[..k - 1];
    }
  }

  /** The entries stored in [low, high). */
  ghost function Slice(engine: map<nat, Entry>, low: nat, high: nat): (r: seq<Entry>)
    requires low <= high && forall i :: low <= i < high ==> i in engine
    ensures |r| == high - low && forall i :: 0 <= i < |r| ==> r[i] == engine[low + i]
  {
    seq(high - low, i requires 0 <= i < high - low => engine[low + i])
  }

  ghost predicate Whole(engine: map<nat, Entry>, low: nat, high: nat)
  {
    forall i :: low <= i < high ==> i in engine && engine[i].index == i
  }

  /** k entries are the longest prefix within maxSize, or the first entry alone. */
  ghost predicate Longest(ents: seq<Entry>, k: nat, maxSize: nat)
  {
    && k <= |ents| && (|ents| > 0 ==> k > 0)
    && (k > 1 ==> Total(ents[..k]) <= maxSize)
    && (forall j :: k < j <= |ents| ==> Total(ents[..j]) > maxSize)
  }

  /** There is only one such prefix. */
  lemma LongestUnique(ents: seq<Entry>, j: nat, k: nat, maxSize: nat)
    requires Longest(ents, j, maxSize) && Longest(ents, k, maxSize)
    ensures j == k
  {
  }

  datatype Fetched = Fetched(entries: seq<Entry>) | Unavailable | Compacted | BadRange

  /** The index the leader proposes to compact to, if any. */
  datatype Proposal = NoCompaction | Compact(index: nat) | Panic

  /** The smallest match, and how the loop goes wrong: it starts over after a zero. */
  function AfterLastZero(matches: seq<nat>): seq<nat>
  {
    if |matches| == 0 || matches[|matches| - 1] == 0 then []
    else AfterLastZero(matches[..|matches| - 1]) + [matches[|matches| - 1]]
  }

  ghost predicate IsMin(x: nat, s: seq<nat>)
  {
    x in s && forall y :: y in s ==> x <= y
  }

  /** The result is the minimum of the matches visited after the last zero, and zero if there are none. */
  method ReplicatedIndex(matches: seq<nat>) returns (r: nat)
    ensures r == 0 <==> AfterLastZero(matches) == []
    ensures r > 0 ==> IsMin(r, AfterLastZero(matches))
  {
    r := 0;
    for i := 0 to |matches|
      invariant r == 0 <==> AfterLastZero(matches[..i]) == []
      invariant r > 0 ==> IsMin(r, AfterLastZero(matches[..i]))
    {
      assert matches[..i + 1][..i] == matches[..i];
      if r == 0 {
        r := matches[i];
      }
      if matches[i] < r {
        r := matches[i];
      }
    }
    assert matches[..|matches|] == matches;
  }

  lemma {:induction false} AfterLastZeroIs(matches: seq<nat>)
    ensures forall y :: y in AfterLastZero(matches) ==> y in matches && y > 0
    ensures 0 !in matches ==> AfterLastZero(matches) == matches
    ensures AfterLastZero(matches) == [] <==> |matches| == 0 || matches[|matches| - 1] == 0
  {
    if |matches| > 0 {
      var n := |matches| - 1;
      AfterLastZeroIs(matches[..n]);
      assert matches == matches[..n] + [matches[n]];
    }
  }

  /** The replicated index is the smallest match exactly when no peer is at zero or the last peer visited is. */
  lemma ReplicatedIsMinIff(matches: seq<nat>, r: nat)
    requires |matches| > 0
    requires r == 0 <==> AfterLastZero(matches) == []
    requires r > 0 ==> IsMin(r, AfterLastZero(matches))
    ensures IsMin(r, matches) <==> 0 !in matches || matches[|matches| - 1] == 0
  {
    AfterLastZeroIs(matches);
    assert matches[|matches| - 1] in matches;
  }

  lemma ReplicatedNotMin()
    ensures AfterLastZero([0, 7]) == [7] && !IsMin(7, [0, 7])
  {
    assert [0, 7][..1] == [0];
    assert 0 in [0, 7];
  }

  /** The leader's applied index is taken when the log is long or large enough. */
  predicate PrefersApplied(appliedIdx: nat, firstIdx: nat, sizeHint: nat, limitCount: nat, limitBytes: nat)
  {
    (appliedIdx > firstIdx && appliedIdx - firstIdx >= limitCount) || sizeHint >= limitBytes
  }

  /** handleCheckCompact. A proposal is made exactly when the replicated index is more than the threshold past
      the first one, unless the applied index is preferred and not past the first. The proposed index lies
      below the last one, and below the replicated one unless the peer there lags by more than the limit. */
  method CheckCompact(matches: seq<nat>, lastIdx: nat, appliedIdx: nat, firstIdx: nat, sizeHint: nat,
                      threshold: nat, limitCount: nat, limitBytes: nat, limitLag: nat)
    returns (p: Proposal, replicated: nat)
    ensures replicated == 0 <==> AfterLastZero(matches) == []
    ensures replicated > 0 ==> IsMin(replicated, AfterLastZero(matches))
    ensures p.Panic? <==> replicated > lastIdx || (firstIdx + threshold < replicated && appliedIdx == 0 && sizeHint >= limitBytes)
    ensures p.Compact? <==>
            && firstIdx + threshold < replicated <= lastIdx
            && (PrefersApplied(appliedIdx, firstIdx, sizeHint, limitCount, limitBytes) && appliedIdx <= firstIdx ==>
                  replicated < appliedIdx <= replicated + limitLag)
    ensures p.Compact? ==> firstIdx <= p.index && (appliedIdx <= lastIdx ==> p.index < lastIdx)
    ensures p.Compact? ==>
              p.index + 1 == if PrefersApplied(appliedIdx, firstIdx, sizeHint, limitCount, limitBytes)
                                && !(replicated < appliedIdx <= replicated + limitLag) then appliedIdx else replicated
    ensures p.Compact? ==> p.index < replicated || appliedIdx > replicated + limitLag
    ensures p.Compact? && replicated > firstIdx + 1 && appliedIdx > firstIdx + 1 ==> p.index > firstIdx
  {
    var replicatedIdx := ReplicatedIndex(matches);
    replicated := replicatedIdx;
    if replicatedIdx > 0 && lastIdx < replicatedIdx {
      return Panic, replicated;
    }
    if replicatedIdx < firstIdx || replicatedIdx - firstIdx <= threshold {
      return NoCompaction, replicated;
    }
    var compactIdx := replicatedIdx;
    if (appliedIdx > firstIdx && appliedIdx - firstIdx >= limitCount) || sizeHint >= limitBytes {
      compactIdx := appliedIdx;
    }
    if compactIdx == 0 {
      return Panic, replicated;
    }
    if compactIdx > replicatedIdx && compactIdx - replicatedIdx <= limitLag {
      compactIdx := replicatedIdx;
    }
    compactIdx := compactIdx - 1;
    if compactIdx < firstIdx {
      return NoCompaction, replicated;
    }
    p := Compact(compactIdx);
  }

  /** The write batch of deletions, one index after the other. */
  method DeleteRange(engine: map<nat, Entry>, from: nat, upTo: nat) returns (wb: map<nat, Entry>)
    ensures wb == Deleted(engine, from, upTo)
  {
    wb := engine;
    var index := from;
    while index < upTo
      invariant from <= index && (from <= upTo ==> index <= upTo) && (upTo < from ==> index == from)
      invariant wb == Deleted(engine, from, index)
    {
      wb := map i | i in wb && i != index :: wb[i];
      index := index + 1;
    }
    assert wb == Deleted(engine, from, upTo);
  }

  class PeerStorage {
    var engine: map<nat, Entry>
    var last: nat
    var lastTerm: nat
    var applyState: Apply
    var lastReadyIndex: nat
    var lastCompactIndex: nat
    var raftLogSizeHint: nat
    var jobs: seq<Job>
    // the apply side
    var disk: Apply
    var results: seq<Result>

    function View(): State
      reads this
    {
      State(engine, last, lastTerm, applyState, disk, results, lastReadyIndex, lastCompactIndex, raftLogSizeHint, jobs)
    }

    /** Writes the entries and deletes what the old log had beyond them. */
    method DoAppendEntries(entries: seq<Entry>)
      modifies this
      ensures View() == AppendStep(old(View()), entries)
    {
      if |entries| == 0 {
        return;
      }
      var prevLast := last;
      var e := entries[|entries| - 1];
      var wb := engine;
      for i := 0 to |entries|
        invariant wb == Written(engine, entries[..i])
        invariant View() == old(View())
      {
        assert entries[..i + 1][..i] == entries[..i];
        wb := wb[entries[i].index := entries[i]];
      }
      assert entries[..|entries|] == entries;
      wb := DeleteRange(wb, e.index + 1, prevLast + 1);
      engine, last, lastTerm := wb, e.index, e.term;
    }

    /** The snapshot replaces the whole log. */
    method DoAppendSnapshot(index: nat, term: nat)
      modifies this
      ensures View() == SnapshotStep(old(View()), index, term)
    {
      engine := map[];
      last, lastTerm := index, term;
      applyState := applyState.(applied := index, trunc := index, truncTerm := term);
      disk, lastReadyIndex, raftLogSizeHint := applyState, index, 0;
    }

    /** Reopens the storage from what is on disk; the entry needed for the last term is there. */
    method Reopen()
      requires Inv(View())
      modifies this
      ensures View() == RestartStep(old(View())) && Inv(View())
      ensures lastTerm == old(lastTerm)
    {
      RestartKeeps(View());
      ghost var s := View();
      applyState, results, lastReadyIndex, lastCompactIndex, raftLogSizeHint, jobs := disk, [], disk.applied, 0, 0, [];
      if last == 0 {
        lastTerm := 0;
      } else if last == INIT_INDEX {
        lastTerm := INIT_TERM;
      } else if last == applyState.trunc {
        lastTerm := applyState.truncTerm;
      } else {
        lastTerm := engine[last].term;
      }
      TermIsStored(s, last);
      TermIsStored(View(), last);
    }

    /** Deletes the job's indices one by one. */
    method DoRaftLogGC(k: nat, seek: nat)
      requires k < |jobs|
      modifies this
      ensures View() == GCStep(old(View()), k, seek)
    {
      var job := jobs[k];
      jobs := jobs[..k] + jobs[k + 1..];
      var firstIndex := job.start;
      if firstIndex == 0 {
        firstIndex := seek;
      }
      engine := DeleteRange(engine, firstIndex, job.end);
    }

    /** Takes one apply result: the new apply state, then the compaction's size hint and GC job. */
    method DoPollApply()
      requires Inv(View()) && |results| > 0
      modifies this
      ensures View() == PostApplyStep(old(View())) && Inv(View())
      ensures raftLogSizeHint <= old(raftLogSizeHint)
    {
      PostApplyKeeps(View());
      var r := results[0];
      applyState, results := r.apply, results[1..];
      if r.gc.Some? {
        HintArithmetic(old(View()));
        var total := lastReadyIndex - r.gc.value.firstIndex;
        var remain := lastReadyIndex - r.gc.value.index - 1;
        raftLogSizeHint := raftLogSizeHint * remain % TWO64 / total;
        jobs := jobs + [Job(lastCompactIndex, r.gc.value.index + 1)];
        lastCompactIndex := r.gc.value.index + 1;
      }
    }

    /** The scan stops at a gap, and after the entry that exceeds the size. */
    method Entries(low: nat, high: nat, maxSize: nat) returns (r: Fetched)
      ensures low > high ==> r == BadRange
      ensures low <= high && low <= applyState.trunc ==> r == Compacted
      ensures applyState.trunc < low <= high && high > last + 1 ==> r == BadRange
      ensures applyState.trunc < low <= high <= last + 1 ==> r.Fetched? || r.Unavailable?
      ensures r.Unavailable? ==> !Whole(engine, low, high)
      ensures r.Fetched? && Whole(engine, low, high) ==>
                low <= high && |r.entries| <= high - low && r.entries == Slice(engine, low, high)[..|r.entries|]
                && Longest(Slice(engine, low, high), |r.entries|, maxSize)
    {
      if low > high {
        return BadRange;
      }
      if low <= applyState.trunc {
        return Compacted;
      }
      if high > last + 1 {
        return BadRange;
      }
      if low == high {
        return Fetched([]);
      }
      if low + 1 == high {
        if low !in engine {
          return Unavailable;
        }
        return Fetched([engine[low]]);
      }
      r := Scan(low, high, maxSize);
    }

    method Scan(low: nat, high: nat, maxSize: nat) returns (r: Fetched)
      requires low + 1 < high
      ensures r.Fetched? || r.Unavailable?
      ensures r.Unavailable? ==> !Whole(engine, low, high)
      ensures r.Fetched? && Whole(engine, low, high) ==>
                |r.entries| <= high - low && r.entries == Slice(engine, low, high)[..|r.entries|]
                && Longest(Slice(engine, low, high), |r.entries|, maxSize)
    {
      var ents: seq<Entry> := [];
      var totalSize := 0;
      var nextIndex := low;
      var exceeded := false;
      var stop := false;
      var key := low;
      ghost var whole := Whole(engine, low, high);
      ghost var all := if whole then Slice(engine, low, high) else [];
      while key < high && !stop
        invariant low <= key <= high && (stop ==> key > low)
        invariant whole ==> nextIndex == key && totalSize == Total(all[..key - low]) && stop == exceeded
        invariant whole && !stop ==> ents == all[..key - low] && totalSize <= maxSize
        invariant whole && stop ==> totalSize > maxSize && ents == all[..if key - low == 1 then 1 else key - low - 1]
        invariant whole && stop ==> Total(all[..key - low - 1]) <= maxSize
      {
        if key in engine {
          if engine[key].index != nextIndex {
            stop := true;
          } else {
            nextIndex := nextIndex + 1;
            totalSize := totalSize + engine[key].size;
            exceeded := totalSize > maxSize;
            if !exceeded || |ents| == 0 {
              ents := ents + [engine[key]];
            }
            stop := exceeded;
          }
        }
        key := key + 1;
        assert whole ==> all[..key - low][..key - low - 1] == all[..key - low - 1];
      }
      if whole {
        assert !stop ==> all[..key - low] == all;
        ScanIsLongest(all, |ents|, key - low, maxSize, stop);
      }
      if |ents| == high - low || exceeded {
        return Fetched(ents);
      }
      return Unavailable;
    }
  }

  /** Where the scan ends: n entries were read, and k of them kept. */
  lemma ScanIsLongest(all: seq<Entry>, k: nat, n: nat, maxSize: nat, stop: bool)
    requires n <= |all| && |all| > 0
    requires if stop then n > 0 && Total(all[..n]) > maxSize && k == (if n == 1 then 1 else n - 1) && Total(all[..n - 1]) <= maxSize
             else k == n == |all| && Total(all) <= maxSize
    ensures Longest(all, k, maxSize)
  {
    if stop {
      forall j | k < j <= |all|
        ensures Total(all[..j]) > maxSize
      {
        TotalMonotone(all, n, j);
      }
    } else {
      assert all[..k] == all;
    }
  }
}
