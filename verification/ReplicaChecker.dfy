/** The replica checker's choice of the worst replica, the best target and the best replacement. */
module ReplicaChecker {
  import opened Cells
  import opened Isolation
  import opened Words

  datatype Cfg = Cfg(locations: seq<string>, downLimit: nat, storageRate: int)

  function CellScore(s: Store): real
  {
    if s.capacity == 0 then 0.0 else s.cellCount as real / s.capacity as real
  }

  /** The used share in percent; capacity - available is a 64-bit subtraction. */
  function StorageRatio(s: Store): int
  {
    if s.capacity == 0 then 0 else (s.capacity - s.available) % TWO64 * 100 / s.capacity
  }

  /** 1, 0 or -1 as store a is better than, as good as or worse than store b. */
  function CompareStoreScore(a: Store, scoreA: nat, b: Store, scoreB: nat): int
  {
    if scoreA > scoreB then 1
    else if scoreA < scoreB then -1
    else if CellScore(a) < CellScore(b) then 1
    else if CellScore(a) > CellScore(b) then -1
    else 0
  }

  datatype Filter = StateFilter | StorageThresholdFilter | ExcludedFilter(targets: set<nat>)
                  | DistinctScoreFilter(stores: seq<Store>, safeScore: nat)

  predicate FilterTarget(cfg: Cfg, f: Filter, s: Store)
  {
    match f
    case StateFilter => !(s.up && s.downTime < cfg.downLimit)
    case StorageThresholdFilter => StorageRatio(s) > cfg.storageRate
    case ExcludedFilter(targets) => s.id in targets
    case DistinctScoreFilter(stores, safeScore) => DistinctScore(cfg.locations, stores, s) < safeScore
  }

  predicate Filtered(cfg: Cfg, filters: seq<Filter>, s: Store)
  {
    exists i :: 0 <= i < |filters| && FilterTarget(cfg, filters[i], s)
  }

  ghost predicate DistinctIds(stores: seq<Store>)
  {
    forall i, j :: 0 <= i < j < |stores| ==> stores[i].id != stores[j].id
  }

  function Ids(stores: seq<Store>): set<nat>
  {
    set s | s in stores :: s.id
  }

  /** The stores with another id, in order. */
  function OtherStores(stores: seq<Store>, id: nat): (r: seq<Store>)
    ensures forall s :: s in r <==> s in stores && s.id != id
  {
    if |stores| == 0 then []
    else
      var n := |stores| - 1;
      OtherStores(stores[..n], id) + (if stores[n].id != id then [stores[n]] else [])
  }

  lemma {:induction false} NoneDropped(stores: seq<Store>, id: nat)
    requires id !in Ids(stores)
    ensures OtherStores(stores, id) == stores
  {
    if |stores| > 0 {
      var n := |stores| - 1;
      assert stores == stores[..n] + [stores[n]];
      assert stores[n] in stores;
      NoneDropped(stores[..n], id);
    }
  }

  /** With distinct ids, exactly the store itself is left out. */
  lemma {:induction false} OneDropped(stores: seq<Store>, s: Store)
    requires DistinctIds(stores) && s in stores
    ensures multiset(stores) == multiset(OtherStores(stores, s.id)) + multiset{s}
  {
    var n := |stores| - 1;
    assert stores == stores[..n] + [stores[n]];
    if stores[n] == s {
      assert s.id !in Ids(stores[..n]);
      NoneDropped(stores[..n], s.id);
    } else {
      OneDropped(stores[..n], s);
    }
  }

  method RemoveStore(stores: seq<Store>, id: nat) returns (rest: seq<Store>)
    ensures rest == OtherStores(stores, id)
  {
    rest := [];
    for i := 0 to |stores|
      invariant rest == OtherStores(stores[..i], id)
    {
      assert stores[..i + 1][..i] == stores[..i];
      if stores[i].id != id {
        rest := rest + [stores[i]];
      }
    }
    assert stores[..|stores|] == stores;
  }

  /** A store that may take a replica: up and heard of lately, not too full, and not one of the cell's stores. */
  predicate Usable(cfg: Cfg, cellStores: seq<Store>, s: Store)
  {
    s.up && s.downTime < cfg.downLimit && StorageRatio(s) <= cfg.storageRate && s.id !in Ids(cellStores)
  }

  lemma PassesIff(cfg: Cfg, extra: seq<Filter>, cellStores: seq<Store>, s: Store)
    ensures var filters := extra + [StateFilter, StorageThresholdFilter, ExcludedFilter(Ids(cellStores))];
            Filtered(cfg, filters, s) <==> Filtered(cfg, extra, s) || !Usable(cfg, cellStores, s)
  {
    var n := |extra|;
    var filters := extra + [StateFilter, StorageThresholdFilter, ExcludedFilter(Ids(cellStores))];
    assert filters[n] == StateFilter && filters[n + 1] == StorageThresholdFilter && filters[n + 2] == ExcludedFilter(Ids(cellStores));
    assert forall i :: 0 <= i < n ==> filters[i] == extra[i];
    if !Usable(cfg, cellStores, s) {
      assert FilterTarget(cfg, filters[n], s) || FilterTarget(cfg, filters[n + 1], s) || FilterTarget(cfg, filters[n + 2], s);
    }
    if i :| 0 <= i < n && FilterTarget(cfg, extra[i], s) {
      assert FilterTarget(cfg, filters[i], s);
    }
  }

  /** The ratio is the used share in percent, rounded down, as long as no more is available than there is. */
  lemma StorageRatioIs(s: Store)
    requires 0 < s.capacity < TWO64 && s.available <= s.capacity
    ensures var used := s.capacity - s.available;
            s.capacity * StorageRatio(s) <= used * 100 < s.capacity * StorageRatio(s) + s.capacity
  {
    var used := s.capacity - s.available;
    assert used % TWO64 == used;
    var x := used * 100;
    assert x == s.capacity * (x / s.capacity) + x % s.capacity;
  }

  /** A lower cell score means fewer cells per capacity. */
  lemma CellScoreCompares(a: Store, b: Store)
    requires a.capacity > 0 && b.capacity > 0
    ensures CellScore(a) < CellScore(b) <==> a.cellCount * b.capacity < b.cellCount * a.capacity
  {
    var x, y, p, q := a.cellCount as real, b.cellCount as real, a.capacity as real, b.capacity as real;
    FractionOrder(x, p, y, q);
    assert (a.cellCount * b.capacity) as real == x * q && (b.cellCount * a.capacity) as real == y * p;
  }

  lemma FractionOrder(x: real, p: real, y: real, q: real)
    requires p > 0.0 && q > 0.0
    ensures x / p < y / q <==> x * q < y * p
  {
    var u, v := x / p, y / q;
    assert u * p == x && v * q == y;
    assert x * q == u * (p * q) && y * p == v * (p * q);
    assert p * q > 0.0;
    ScaleOrder(u, v, p * q);
  }

  lemma ScaleOrder(u: real, v: real, k: real)
    requires k > 0.0
    ensures u < v <==> u * k < v * k
  {
    assert (v - u) * k == v * k - u * k;
    if u < v {
      assert (v - u) * k > 0.0;
    } else {
      assert (u - v) * k >= 0.0;
    }
  }

  /** The replica no other replica is worse than. */
  method SelectWorstPeer(cfg: Cfg, stores: seq<Store>) returns (worst: Option<Store>, worstScore: nat)
    ensures worst.None? <==> stores == []
    ensures worst.Some? ==> worst.value in stores && worstScore == DistinctScore(cfg.locations, stores, worst.value)
    ensures worst.Some? ==> forall s :: s in stores ==>
                                          CompareStoreScore(s, DistinctScore(cfg.locations, stores, s), worst.value, worstScore) >= 0
    ensures worst.Some? ==> forall s :: s in stores ==>
                                          var score := DistinctScore(cfg.locations, stores, s);
                                          score > worstScore || (score == worstScore && CellScore(s) <= CellScore(worst.value))
  {
    worst, worstScore := None, 0;
    for i := 0 to |stores|
      invariant worst.None? <==> i == 0
      invariant worst.Some? ==> worst.value in stores && worstScore == DistinctScore(cfg.locations, stores, worst.value)
      invariant worst.Some? ==> forall j :: 0 <= j < i ==>
        CompareStoreScore(stores[j], DistinctScore(cfg.locations, stores, stores[j]), worst.value, worstScore) >= 0
    {
      var score := GetDistinctScore(cfg.locations, stores, stores[i]);
      if worst.None? || CompareStoreScore(stores[i], score, worst.value, worstScore) < 0 {
        worst, worstScore := Some(stores[i]), score;
      }
    }
  }

  /** The target store that passes every filter and that no other such store beats. */
  method SelectBestPeer(cfg: Cfg, cellStores: seq<Store>, all: seq<Store>, extra: seq<Filter>)
    returns (best: Option<Store>, bestScore: nat)
    ensures var filters := extra + [StateFilter, StorageThresholdFilter, ExcludedFilter(Ids(cellStores))];
            && (best.None? <==> forall s :: s in all ==> Filtered(cfg, filters, s))
            && (best.Some? ==> best.value in all && !Filtered(cfg, filters, best.value))
            && (best.Some? ==> bestScore == DistinctScore(cfg.locations, cellStores, best.value))
            && (best.Some? ==> forall s :: s in all && !Filtered(cfg, filters, s) ==>
                  CompareStoreScore(s, DistinctScore(cfg.locations, cellStores, s), best.value, bestScore) <= 0)
    ensures var filters := extra + [StateFilter, StorageThresholdFilter, ExcludedFilter(Ids(cellStores))];
            best.Some? ==> forall s :: s in all && !Filtered(cfg, filters, s) ==>
              var score := DistinctScore(cfg.locations, cellStores, s);
              score < bestScore || (score == bestScore && CellScore(best.value) <= CellScore(s))
    ensures best.Some? ==> !Filtered(cfg, extra, best.value) && Usable(cfg, cellStores, best.value)
    ensures best.None? ==> forall s :: s in all && Usable(cfg, cellStores, s) ==> Filtered(cfg, extra, s)
  {
    forall s
      ensures Filtered(cfg, extra + [StateFilter, StorageThresholdFilter, ExcludedFilter(Ids(cellStores))], s)
              <==> Filtered(cfg, extra, s) || !Usable(cfg, cellStores, s)
    {
      PassesIff(cfg, extra, cellStores, s);
    }
    var filters := extra + [StateFilter, StorageThresholdFilter, ExcludedFilter(Ids(cellStores))];
    best, bestScore := None, 0;
    for i := 0 to |all|
      invariant best.None? <==> forall j :: 0 <= j < i ==> Filtered(cfg, filters, all[j])
      invariant best.Some? ==> best.value in all && !Filtered(cfg, filters, best.value)
      invariant best.Some? ==> bestScore == DistinctScore(cfg.locations, cellStores, best.value)
      invariant best.Some? ==> forall j :: 0 <= j < i && !Filtered(cfg, filters, all[j]) ==>
        CompareStoreScore(all[j], DistinctScore(cfg.locations, cellStores, all[j]), best.value, bestScore) <= 0
    {
      if Filtered(cfg, filters, all[i]) {
        continue;
      }
      var score := GetDistinctScore(cfg.locations, cellStores, all[i]);
      if best.None? || CompareStoreScore(all[i], score, best.value, bestScore) > 0 {
        best, bestScore := Some(all[i]), score;
      }
    }
  }

  ghost predicate AllLabelled(cfg: Cfg, stores: seq<Store>)
  {
    forall s :: s in stores ==> Labelled(cfg.locations, s)
  }

  /** `after` lists the placement in which `now` has taken the place of `was`. */
  ghost predicate Moved(before: seq<Store>, after: seq<Store>, was: Store, now: Store)
  {
    was in before && multiset(after) == multiset(before) - multiset{was} + multiset{now}
  }

  /** A store scores the same against a list with and without itself. */
  lemma SelfDoesNotCount(cfg: Cfg, stores: seq<Store>, s: Store)
    requires DistinctIds(stores) && s in stores
    ensures Score(cfg.locations, stores, s) == Score(cfg.locations, OtherStores(stores, s.id), s)
  {
    var rest := OtherStores(stores, s.id);
    OneDropped(stores, s);
    ScorePermuted(cfg.locations, stores, rest + [s], s);
    ScoreConcat(cfg.locations, |cfg.locations|, rest, [s], s);
    SelfPair(cfg.locations, |cfg.locations|, s);
  }

  lemma {:induction false} SelfPair(keys: seq<string>, i: nat, s: Store)
    requires i <= |keys|
    ensures ScoreUpTo(keys, i, [s], s) == 0
  {
    if i > 0 {
      SelfPair(keys, i - 1, s);
      SingleLevel(keys, i - 1, s, s);
    }
  }

  lemma MoveRaisesTotal(cfg: Cfg, before: seq<Store>, after: seq<Store>, was: Store, now: Store)
    requires DistinctIds(before) && Moved(before, after, was, now)
    ensures var rest := OtherStores(before, was.id);
            Total(cfg.locations, after) - Total(cfg.locations, before) ==
            Score(cfg.locations, rest, now) - Score(cfg.locations, rest, was)
  {
    OneDropped(before, was);
    MoveChangesTotal(cfg.locations, before, after, OtherStores(before, was.id), was, now);
  }

  predicate Worst(cfg: Cfg, stores: seq<Store>, w: Store)
  {
    w in stores &&
    forall s :: s in stores ==> CompareStoreScore(s, DistinctScore(cfg.locations, stores, s),
                                                  w, DistinctScore(cfg.locations, stores, w)) >= 0
  }

  function ReplacementFilters(stores: seq<Store>, was: Store): seq<Filter>
  {
    [ExcludedFilter(Ids(stores)), StateFilter, StorageThresholdFilter, ExcludedFilter(Ids(OtherStores(stores, was.id)))]
  }

  /** The checker moves the replica on `was` to `now`: the worst replica, a target that passes the
      filters, and a strictly higher score. */
  ghost predicate Replaces(cfg: Cfg, all: seq<Store>, stores: seq<Store>, was: Store, now: Store)
  {
    && Worst(cfg, stores, was)
    && now in all && !Filtered(cfg, ReplacementFilters(stores, was), now)
    && DistinctScore(cfg.locations, OtherStores(stores, was.id), now) > DistinctScore(cfg.locations, stores, was)
  }

  function GuardFilters(cfg: Cfg, stores: seq<Store>, source: Store): seq<Filter>
  {
    var rest := OtherStores(stores, source.id);
    [DistinctScoreFilter(rest, DistinctScore(cfg.locations, rest, source)),
     StateFilter, StorageThresholdFilter, ExcludedFilter(Ids(stores))]
  }

  /** The balancer moves the replica on `source` to a target that passes the score guard. */
  ghost predicate Balances(cfg: Cfg, all: seq<Store>, stores: seq<Store>, source: Store, target: Store)
  {
    source in stores && target in all && !Filtered(cfg, GuardFilters(cfg, stores, source), target)
  }

  /** Each replacement strictly raises the total pairwise score of the cell. */
  lemma ReplacementRaisesTotal(cfg: Cfg, all: seq<Store>, stores: seq<Store>, after: seq<Store>, was: Store, now: Store)
    requires DistinctIds(stores) && AllLabelled(cfg, stores) && AllLabelled(cfg, all)
    requires Replaces(cfg, all, stores, was, now) && Moved(stores, after, was, now)
    ensures Total(cfg.locations, after) > Total(cfg.locations, stores)
  {
    LabelledLocated(cfg.locations, stores, was);
    LabelledLocated(cfg.locations, OtherStores(stores, was.id), now);
    SelfDoesNotCount(cfg, stores, was);
    MoveRaisesTotal(cfg, stores, after, was, now);
  }

  /** A balancer move under the score guard never lowers it. */
  lemma BalanceKeepsTotal(cfg: Cfg, all: seq<Store>, stores: seq<Store>, after: seq<Store>, source: Store, target: Store)
    requires DistinctIds(stores) && AllLabelled(cfg, stores) && AllLabelled(cfg, all)
    requires Balances(cfg, all, stores, source, target) && Moved(stores, after, source, target)
    ensures Total(cfg.locations, after) >= Total(cfg.locations, stores)
  {
    var rest := OtherStores(stores, source.id);
    LabelledLocated(cfg.locations, rest, source);
    LabelledLocated(cfg.locations, rest, target);
    assert !FilterTarget(cfg, GuardFilters(cfg, stores, source)[0], target);
    MoveRaisesTotal(cfg, stores, after, source, target);
  }

  /** newId is the fresh peer id, or None when the allocator fails. */
  method CheckBestReplacement(cfg: Cfg, stores: seq<Store>, all: seq<Store>, newId: Option<nat>)
    returns (op: Option<(Store, Store)>)
    requires DistinctIds(stores)
    ensures op.Some? ==> Replaces(cfg, all, stores, op.value.0, op.value.1) && op.value.1.id !in Ids(stores)
    ensures op.None? && stores != [] && newId.Some? ==>
              exists w :: Worst(cfg, stores, w) &&
                          forall s :: s in all && !Filtered(cfg, ReplacementFilters(stores, w), s) ==>
                                        DistinctScore(cfg.locations, OtherStores(stores, w.id), s)
                                        <= DistinctScore(cfg.locations, stores, w)
  {
    var worst, oldScore := SelectWorstPeer(cfg, stores);
    if worst.None? {
      return None;
    }
    var was := worst.value;
    assert Worst(cfg, stores, was);
    var rest := RemoveStore(stores, was.id);
    var best, newScore := SelectBestPeer(cfg, rest, all, [ExcludedFilter(Ids(stores))]);
    assert [ExcludedFilter(Ids(stores))] + [StateFilter, StorageThresholdFilter, ExcludedFilter(Ids(rest))]
        == ReplacementFilters(stores, was);
    if best.None? || newScore <= oldScore || newId.None? {
      return None;
    }
    var now := best.value;
    assert !FilterTarget(cfg, ReplacementFilters(stores, was)[0], now);
    return Some((was, now));
  }

  /** How many of its cells the source has too many, by the ratio of the scores. */
  function BalanceDiff(source: Store, target: Store): real
    requires CellScore(source) != 0.0
  {
    (1.0 - CellScore(target) / CellScore(source)) * source.cellCount as real
  }

  /** Two cells, or from ten cells on the square root of their number. */
  predicate EnoughDiff(diff: real, count: nat)
  {
    if count < 10 then diff >= 2.0 else diff >= 0.0 && diff * diff >= count as real
  }

  /** The target is less loaded by the margin. */
  predicate ShouldBalance(source: Store, target: Store)
  {
    0.0 <= CellScore(target) < CellScore(source) && EnoughDiff(BalanceDiff(source, target), source.cellCount)
  }

  /** Between stores of equal capacity the margin is on the number of cells. */
  lemma ShouldBalanceMeans(source: Store, target: Store)
    requires source.capacity == target.capacity > 0 && source.cellCount > 0
    ensures ShouldBalance(source, target) <==>
            && target.cellCount < source.cellCount
            && var diff := source.cellCount - target.cellCount;
               if source.cellCount < 10 then diff >= 2 else diff * diff >= source.cellCount
  {
    LoadOrder(source, target);
    if target.cellCount < source.cellCount {
      DiffIs(source, target);
      Margin(source.cellCount - target.cellCount, source.cellCount, BalanceDiff(source, target));
    }
  }

  lemma LoadOrder(source: Store, target: Store)
    requires source.capacity == target.capacity > 0 && source.cellCount > 0
    ensures CellScore(target) < CellScore(source) <==> target.cellCount < source.cellCount
    ensures 0.0 <= CellScore(target) && 0.0 < CellScore(source)
  {
    var n, m, c := source.cellCount as real, target.cellCount as real, source.capacity as real;
    FractionOrder(m, c, n, c);
    ScaleOrder(m, n, c);
    FractionOrder(0.0, c, n, c);
    FractionOrder(m, c, 0.0, c);
    ScaleOrder(m, 0.0, c);
  }

  lemma DiffIs(source: Store, target: Store)
    requires source.capacity == target.capacity > 0 && source.cellCount > 0 && CellScore(source) != 0.0
    ensures BalanceDiff(source, target) == source.cellCount as real - target.cellCount as real
  {
    RatioOfScores(target.cellCount as real, source.cellCount as real, source.capacity as real);
  }

  lemma Margin(diff: nat, count: nat, d: real)
    requires d == diff as real
    ensures EnoughDiff(d, count) <==> if count < 10 then diff >= 2 else diff * diff >= count
  {
    assert (diff * diff) as real == d * d;
  }

  lemma RatioOfScores(m: real, n: real, c: real)
    requires n > 0.0 && c > 0.0
    ensures n / c > 0.0 && (1.0 - (m / c) / (n / c)) * n == n - m
  {
    var u, v := m / c, n / c;
    assert u * c == m && v * c == n;
    ScaleOrder(0.0, v, c);
    var r := u / v;
    assert r * v == u;
    assert r * n == r * (v * c) == (r * v) * c == m;
    assert (1.0 - r) * n == n - r * n;
  }

  /** No store that passes the guard beats this one. */
  ghost predicate BestTarget(cfg: Cfg, all: seq<Store>, stores: seq<Store>, source: Store, b: Store)
  {
    && Balances(cfg, all, stores, source, b)
    && forall s :: s in all && !Filtered(cfg, GuardFilters(cfg, stores, source), s) ==>
                     CompareStoreScore(s, DistinctScore(cfg.locations, stores, s), b, DistinctScore(cfg.locations, stores, b)) <= 0
  }

  /** The balancer's move away from `source`: to a best target under the score guard, if it is worth it. */
  method TransferPeer(cfg: Cfg, stores: seq<Store>, all: seq<Store>, source: Store) returns (target: Option<Store>)
    requires source in stores
    ensures target.Some? ==> BestTarget(cfg, all, stores, source, target.value) && target.value.id !in Ids(stores)
    ensures target.Some? ==> ShouldBalance(source, target.value)
    ensures target.None? ==> (forall s :: s in all ==> Filtered(cfg, GuardFilters(cfg, stores, source), s))
                             || exists b :: BestTarget(cfg, all, stores, source, b) && !ShouldBalance(source, b)
  {
    var newStores := RemoveStore(stores, source.id);
    var safeScore := GetDistinctScore(cfg.locations, newStores, source);
    var guard := DistinctScoreFilter(newStores, safeScore);
    var score;
    target, score := SelectBestPeer(cfg, stores, all, [guard]);
    assert [guard] + [StateFilter, StorageThresholdFilter, ExcludedFilter(Ids(stores))] == GuardFilters(cfg, stores, source);
    if target.None? {
      return;
    }
    assert BestTarget(cfg, all, stores, source, target.value);
    assert !FilterTarget(cfg, GuardFilters(cfg, stores, source)[3], target.value);
    if !ShouldBalance(source, target.value) {
      return None;
    }
  }

  // ---- whole runs of moves over fixed stores ----

  ghost predicate MoveStep(cfg: Cfg, all: seq<Store>, before: seq<Store>, after: seq<Store>, replacement: bool)
  {
    exists was, now :: Moved(before, after, was, now) &&
                       if replacement then Replaces(cfg, all, before, was, now) else Balances(cfg, all, before, was, now)
  }

  /** A run of placements over the fixed stores `all`; step i is a replacement when kinds[i] holds and a
      balancer move otherwise. A cell's stores are listed from a set of ids, so the ids are distinct. */
  ghost predicate MoveRun(cfg: Cfg, all: seq<Store>, run: seq<seq<Store>>, kinds: seq<bool>)
  {
    && AllLabelled(cfg, all)
    && |run| == |kinds| + 1
    && (forall i :: 0 <= i < |run| ==> DistinctIds(run[i]))
    && (forall i :: 0 <= i < |run| ==> forall s :: s in run[i] ==> s in all)
    && forall i :: 0 <= i < |kinds| ==> MoveStep(cfg, all, run[i], run[i + 1], kinds[i])
  }

  lemma StepRaisesTotal(cfg: Cfg, all: seq<Store>, before: seq<Store>, after: seq<Store>, replacement: bool)
    requires DistinctIds(before) && AllLabelled(cfg, before) && AllLabelled(cfg, all)
    requires MoveStep(cfg, all, before, after, replacement)
    ensures |after| == |before|
    ensures Total(cfg.locations, after) >= Total(cfg.locations, before) + if replacement then 1 else 0
  {
    var was, now :| Moved(before, after, was, now) &&
                    if replacement then Replaces(cfg, all, before, was, now) else Balances(cfg, all, before, was, now);
    assert |after| == |multiset(after)| && |before| == |multiset(before)|;
    if replacement {
      ReplacementRaisesTotal(cfg, all, before, after, was, now);
    } else {
      BalanceKeepsTotal(cfg, all, before, after, was, now);
    }
  }

  function Replacements(kinds: seq<bool>): nat
  {
    if |kinds| == 0 then 0
    else Replacements(kinds[..|kinds| - 1]) + (if kinds[|kinds| - 1] then 1 else 0)
  }

  lemma {:induction false} RunRaisesTotal(cfg: Cfg, all: seq<Store>, run: seq<seq<Store>>, kinds: seq<bool>)
    requires MoveRun(cfg, all, run, kinds)
    ensures |run[|kinds|]| == |run[0]|
    ensures Total(cfg.locations, run[0]) + Replacements(kinds) <= Total(cfg.locations, run[|kinds|])
  {
    if |kinds| > 0 {
      var n := |kinds| - 1;
      RunRaisesTotal(cfg, all, run[..|kinds|], kinds[..n]);
      StepRaisesTotal(cfg, all, run[n], run[n + 1], kinds[n]);
    }
  }

  /** The checker cannot replace forever: the number of replacements is bounded, whatever balancer
      moves come in between, and a placement never returns after a replacement. */
  lemma ReplacementsBounded(cfg: Cfg, all: seq<Store>, run: seq<seq<Store>>, kinds: seq<bool>)
    requires MoveRun(cfg, all, run, kinds)
    ensures Replacements(kinds) <= |run[0]| * (|run[0]| * Pow100(|cfg.locations|))
    ensures Replacements(kinds) > 0 ==> multiset(run[|kinds|]) != multiset(run[0])
  {
    RunRaisesTotal(cfg, all, run, kinds);
    TotalBound(cfg.locations, run[|kinds|]);
    if multiset(run[|kinds|]) == multiset(run[0]) {
      TotalPermuted(cfg.locations, run[|kinds|], run[0]);
    }
  }
}
