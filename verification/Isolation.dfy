/** Isolation scores of replica placements: base-100 weights over location levels. */
module Isolation {

  datatype Store = Store(id: nat, labels: seq<(string, string)>, up: bool, downTime: nat,
                         capacity: nat, available: nat, cellCount: nat)

  /** The value of the first label with the key, or the empty string. */
  function LabelValue(labels: seq<(string, string)>, key: string): string
  {
    if |labels| == 0 then ""
    else if labels[0].0 == key then labels[0].1
    else LabelValue(labels[1..], key)
  }

  /** The label values concatenated; empty as soon as one is missing. */
  function LocationId(s: Store, keys: seq<string>): string
  {
    if |keys| == 0 then ""
    else
      var v := LabelValue(s.labels, keys[|keys| - 1]);
      if v == "" then ""
      else if |keys| == 1 then v
      else
        var rest := LocationId(s, keys[..|keys| - 1]);
        if rest == "" then "" else rest + v
  }

  /** Every location label has a value on the store. */
  ghost predicate Labelled(keys: seq<string>, s: Store)
  {
    forall i :: 0 <= i < |keys| ==> LabelValue(s.labels, keys[i]) != ""
  }

  lemma {:induction false} LabelledHasLocation(keys: seq<string>, s: Store)
    requires Labelled(keys, s) && |keys| > 0
    ensures LocationId(s, keys) != ""
  {
    if |keys| > 1 {
      LabelledHasLocation(keys[..|keys| - 1], s);
    }
  }

  /** The first label with the key decides. */
  lemma {:induction false} LabelValueIs(labels: seq<(string, string)>, key: string)
    ensures (exists i :: 0 <= i < |labels| && labels[i].0 == key && LabelValue(labels, key) == labels[i].1
                         && forall j :: 0 <= j < i ==> labels[j].0 != key)
            || (LabelValue(labels, key) == "" && forall i :: 0 <= i < |labels| ==> labels[i].0 != key)
  {
    if |labels| > 0 && labels[0].0 != key {
      LabelValueIs(labels[1..], key);
      assert forall i :: 1 <= i < |labels| ==> labels[i] == labels[1..][i - 1];
      if i :| 0 <= i < |labels| - 1 && labels[1..][i].0 == key && LabelValue(labels[1..], key) == labels[1..][i].1
              && forall j :: 0 <= j < i ==> labels[1..][j].0 != key {
        assert labels[i + 1].0 == key;
      }
    }
  }

  /** The loop over the labels of a store. */
  method GetLabelValue(s: Store, key: string) returns (v: string)
    ensures v == LabelValue(s.labels, key)
  {
    for i := 0 to |s.labels|
      invariant LabelValue(s.labels, key) == LabelValue(s.labels[i..], key)
    {
      if s.labels[i].0 == key {
        return s.labels[i].1;
      }
      assert s.labels[i..][1..] == s.labels[i + 1..];
    }
    v := "";
  }

  /** The location ID grows by one label value per level and is lost with the first missing one. */
  lemma {:induction false} LocationGrows(s: Store, keys: seq<string>, n: nat)
    requires n < |keys|
    ensures var v := LabelValue(s.labels, keys[n]);
            LocationId(s, keys[..n + 1]) == if v == "" || (n > 0 && LocationId(s, keys[..n]) == "") then ""
                                            else LocationId(s, keys[..n]) + v
  {
    assert keys[..n + 1][..n] == keys[..n];
  }

  /** A location ID is empty exactly when there are no labels to look at or one of them is missing. */
  lemma {:induction false} LocationEmptyIff(s: Store, keys: seq<string>)
    ensures LocationId(s, keys) == "" <==> |keys| == 0 || !Labelled(keys, s)
  {
    if |keys| > 0 {
      var n := |keys| - 1;
      LocationEmptyIff(s, keys[..n]);
      assert forall i :: 0 <= i < n ==> keys[..n][i] == keys[i];
    }
  }

  /** The loop over the location labels. */
  method GetLocationID(s: Store, keys: seq<string>) returns (id: string)
    ensures id == LocationId(s, keys)
  {
    id := "";
    for i := 0 to |keys|
      invariant id == LocationId(s, keys[..i]) && (i > 0 ==> id != "")
    {
      LocationGrows(s, keys, i);
      var v := GetLabelValue(s, keys[i]);
      if |v| == 0 {
        LocationLost(s, keys, i);
        return "";
      }
      id := id + v;
    }
    assert keys[..|keys|] == keys;
  }

  lemma LocationLost(s: Store, keys: seq<string>, i: nat)
    requires i < |keys| && LabelValue(s.labels, keys[i]) == ""
    ensures LocationId(s, keys) == ""
  {
    LocationEmptyIff(s, keys);
  }

  /** Where all labels above agree, two stores differ at a level exactly if their values for it do. */
  lemma LevelDiffersIff(keys: seq<string>, i: nat, a: Store, b: Store)
    requires i < |keys| && Labelled(keys[..i + 1], a) && Labelled(keys[..i + 1], b)
    requires forall k :: 0 <= k < i ==> LabelValue(a.labels, keys[k]) == LabelValue(b.labels, keys[k])
    ensures LocAt(keys, i, a) != LocAt(keys, i, b) <==> LabelValue(a.labels, keys[i]) != LabelValue(b.labels, keys[i])
  {
    SameLabelsSameLocation(keys[..i], a, b);
    LocationGrows(a, keys, i);
    LocationGrows(b, keys, i);
    LocationEmptyIff(a, keys[..i + 1]);
    LocationEmptyIff(b, keys[..i + 1]);
    var rest := LocationId(a, keys[..i]);
    var va, vb := LabelValue(a.labels, keys[i]), LabelValue(b.labels, keys[i]);
    assert (rest + va)[|rest|..] == va && (rest + vb)[|rest|..] == vb;
  }

  lemma {:induction false} SameLabelsSameLocation(keys: seq<string>, a: Store, b: Store)
    requires forall k :: 0 <= k < |keys| ==> LabelValue(a.labels, keys[k]) == LabelValue(b.labels, keys[k])
    ensures LocationId(a, keys) == LocationId(b, keys)
  {
    if |keys| > 0 {
      SameLabelsSameLocation(keys[..|keys| - 1], a, b);
    }
  }

  function Pow100(n: nat): (r: nat)
    ensures r >= 1
  {
    if n == 0 then 1 else 100 * Pow100(n - 1)
  }

  /** The location ID of level i. */
  function LocAt(keys: seq<string>, i: nat, s: Store): string
    requires i < |keys|
  {
    LocationId(s, keys[..i + 1])
  }

  predicate Differs(keys: seq<string>, i: nat, s: Store, o: Store)
    requires i < |keys|
  {
    s.id != o.id && LocAt(keys, i, s) != LocAt(keys, i, o)
  }

  /** Level i: every store that differs from o adds 100 to the power |keys| - i - 1. */
  function LevelScore(keys: seq<string>, i: nat, stores: seq<Store>, o: Store): nat
    requires i < |keys|
  {
    if |stores| == 0 then 0
    else
      var last := stores[|stores| - 1];
      LevelScore(keys, i, stores[..|stores| - 1], o) + (if Differs(keys, i, last, o) then Pow100(|keys| - i - 1) else 0)
  }

  /** The score of the levels below i. */
  function ScoreUpTo(keys: seq<string>, i: nat, stores: seq<Store>, o: Store): nat
    requires i <= |keys|
  {
    if i == 0 then 0 else ScoreUpTo(keys, i - 1, stores, o) + LevelScore(keys, i - 1, stores, o)
  }

  function Score(keys: seq<string>, stores: seq<Store>, o: Store): nat
  {
    ScoreUpTo(keys, |keys|, stores, o)
  }

  /** The location IDs compared at level i are present for the first n stores. */
  predicate LevelLocated(keys: seq<string>, i: nat, n: nat, stores: seq<Store>, o: Store)
    requires i < |keys| && n <= |stores|
  {
    forall j :: 0 <= j < n && stores[j].id != o.id ==> LocAt(keys, i, stores[j]) != "" && LocAt(keys, i, o) != ""
  }

  predicate Located(keys: seq<string>, stores: seq<Store>, o: Store)
  {
    forall i :: 0 <= i < |keys| ==> LevelLocated(keys, i, |stores|, stores, o)
  }

  /** A missing location ID anywhere makes the whole score 0. */
  function DistinctScore(keys: seq<string>, stores: seq<Store>, other: Store): nat
  {
    if Located(keys, stores, other) then Score(keys, stores, other) else 0
  }

  /** Every comparison finds its location IDs exactly if the other store and all stores compared have all labels. */
  lemma LocatedIff(keys: seq<string>, stores: seq<Store>, o: Store)
    ensures Located(keys, stores, o) <==>
            forall j :: 0 <= j < |stores| && stores[j].id != o.id ==> Labelled(keys, stores[j]) && Labelled(keys, o)
  {
    forall i, s: Store | 0 <= i < |keys|
      ensures Labelled(keys, s) ==> LocAt(keys, i, s) != ""
      ensures i == |keys| - 1 && LocAt(keys, i, s) != "" ==> Labelled(keys, s)
    {
      LocationEmptyIff(s, keys[..i + 1]);
      assert forall k :: 0 <= k <= i ==> keys[..i + 1][k] == keys[k];
      assert keys[..|keys|] == keys;
    }
    if |keys| > 0 && Located(keys, stores, o) {
      assert LevelLocated(keys, |keys| - 1, |stores|, stores, o);
    }
  }

  /** The score counts only if no label is missing among the stores compared. */
  lemma DistinctScoreIs(keys: seq<string>, stores: seq<Store>, o: Store)
    ensures DistinctScore(keys, stores, o) ==
            if exists j :: 0 <= j < |stores| && stores[j].id != o.id && !(Labelled(keys, stores[j]) && Labelled(keys, o)) then 0
            else Score(keys, stores, o)
  {
    LocatedIff(keys, stores, o);
  }

  method GetDistinctScore(keys: seq<string>, stores: seq<Store>, other: Store) returns (score: nat)
    ensures score == DistinctScore(keys, stores, other)
  {
    score := 0;
    for i := 0 to |keys|
      invariant score == ScoreUpTo(keys, i, stores, other)
      invariant forall k :: 0 <= k < i ==> LevelLocated(keys, k, |stores|, stores, other)
    {
      var levelScore := Pow100(|keys| - i - 1);
      ghost var base := score;
      for j := 0 to |stores|
        invariant score == base + LevelScore(keys, i, stores[..j], other)
        invariant LevelLocated(keys, i, j, stores, other)
      {
        assert stores[..j + 1][..j] == stores[..j];
        if stores[j].id == other.id {
          continue;
        }
        var id1 := LocAt(keys, i, stores[j]);
        if id1 == "" {
          assert !LevelLocated(keys, i, |stores|, stores, other);
          return 0;
        }
        var id2 := LocAt(keys, i, other);
        if id2 == "" {
          assert !LevelLocated(keys, i, |stores|, stores, other);
          return 0;
        }
        if id1 != id2 {
          score := score + levelScore;
        }
      }
      assert stores[..|stores|] == stores;
    }
  }

  // ---- the total pairwise score of a placement ----

  lemma LabelledLocated(keys: seq<string>, stores: seq<Store>, o: Store)
    requires Labelled(keys, o) && forall s :: s in stores ==> Labelled(keys, s)
    ensures DistinctScore(keys, stores, o) == Score(keys, stores, o)
  {
    forall i, s | 0 <= i < |keys| && (s in stores || s == o)
      ensures LocAt(keys, i, s) != ""
    {
      LabelledHasLocation(keys[..i + 1], s);
    }
  }

  /** Sum of the scores over all pairs. */
  function Total(keys: seq<string>, stores: seq<Store>): nat
  {
    if |stores| == 0 then 0
    else
      var front := stores[..|stores| - 1];
      Total(keys, front) + Score(keys, front, stores[|stores| - 1])
  }

  function RemoveAt(stores: seq<Store>, k: nat): (r: seq<Store>)
    requires k < |stores|
    ensures |r| == |stores| - 1
    ensures multiset(r) == multiset(stores) - multiset{stores[k]}
  {
    assert stores == stores[..k] + [stores[k]] + stores[k + 1..];
    stores[..k] + stores[k + 1..]
  }

  lemma {:induction false} LevelConcat(keys: seq<string>, i: nat, a: seq<Store>, b: seq<Store>, o: Store)
    requires i < |keys|
    ensures LevelScore(keys, i, a + b, o) == LevelScore(keys, i, a, o) + LevelScore(keys, i, b, o)
  {
    if |b| == 0 {
      assert a + b == a;
    } else {
      assert (a + b)[..|a + b| - 1] == a + b[..|b| - 1];
      LevelConcat(keys, i, a, b[..|b| - 1], o);
    }
  }

  lemma {:induction false} ScoreConcat(keys: seq<string>, i: nat, a: seq<Store>, b: seq<Store>, o: Store)
    requires i <= |keys|
    ensures ScoreUpTo(keys, i, a + b, o) == ScoreUpTo(keys, i, a, o) + ScoreUpTo(keys, i, b, o)
  {
    if i > 0 {
      ScoreConcat(keys, i - 1, a, b, o);
      LevelConcat(keys, i - 1, a, b, o);
    }
  }

  lemma SingleLevel(keys: seq<string>, i: nat, a: Store, o: Store)
    requires i < |keys|
    ensures LevelScore(keys, i, [a], o) == if Differs(keys, i, a, o) then Pow100(|keys| - i - 1) else 0
  {
    assert [a][..0] == [];
  }

  lemma {:induction false} PairSymmetric(keys: seq<string>, i: nat, a: Store, b: Store)
    requires i <= |keys|
    ensures ScoreUpTo(keys, i, [a], b) == ScoreUpTo(keys, i, [b], a)
  {
    if i > 0 {
      PairSymmetric(keys, i - 1, a, b);
      SingleLevel(keys, i - 1, a, b);
      SingleLevel(keys, i - 1, b, a);
    }
  }

  lemma ScoreRemoveAt(keys: seq<string>, stores: seq<Store>, k: nat, o: Store)
    requires k < |stores|
    ensures Score(keys, stores, o) == Score(keys, RemoveAt(stores, k), o) + Score(keys, [stores[k]], o)
  {
    assert stores == stores[..k] + ([stores[k]] + stores[k + 1..]);
    ScoreConcat(keys, |keys|, stores[..k], [stores[k]] + stores[k + 1..], o);
    ScoreConcat(keys, |keys|, [stores[k]], stores[k + 1..], o);
    ScoreConcat(keys, |keys|, stores[..k], stores[k + 1..], o);
  }

  lemma RemoveAtFront(stores: seq<Store>, k: nat)
    requires k < |stores| - 1
    ensures var n := |stores| - 1; RemoveAt(stores, k) == RemoveAt(stores[..n], k) + [stores[n]]
  {
    var n := |stores| - 1;
    assert stores[..n][..k] == stores[..k];
    assert stores[k + 1..] == stores[..n][k + 1..] + [stores[n]];
  }

  /** Taking one replica out lowers the total by that replica's score against the others. */
  lemma {:induction false} TotalRemoveAt(keys: seq<string>, stores: seq<Store>, k: nat)
    requires k < |stores|
    ensures Total(keys, stores) == Total(keys, RemoveAt(stores, k)) + Score(keys, RemoveAt(stores, k), stores[k])
  {
    var n := |stores| - 1;
    var front, last := stores[..n], stores[n];
    if k == n {
      assert RemoveAt(stores, k) == front;
    } else {
      TotalRemoveAt(keys, front, k);
      var rest := RemoveAt(front, k);
      RemoveAtFront(stores, k);
      assert (rest + [last])[..|rest|] == rest;
      ScoreRemoveAt(keys, front, k, last);
      ScoreConcat(keys, |keys|, rest, [last], stores[k]);
      PairSymmetric(keys, |keys|, last, stores[k]);
    }
  }

  lemma {:induction false} ScorePermuted(keys: seq<string>, a: seq<Store>, b: seq<Store>, o: Store)
    requires multiset(a) == multiset(b)
    ensures Score(keys, a, o) == Score(keys, b, o)
    decreases |a|
  {
    assert |a| == |multiset(a)| == |multiset(b)| == |b|;
    if |a| > 0 {
      assert a[0] in multiset(b);
      var k :| 0 <= k < |b| && b[k] == a[0];
      ScoreRemoveAt(keys, a, 0, o);
      ScoreRemoveAt(keys, b, k, o);
      ScorePermuted(keys, RemoveAt(a, 0), RemoveAt(b, k), o);
    } else {
      assert a == b;
    }
  }

  /** The order in which the cell's stores are listed does not matter. */
  lemma {:induction false} TotalPermuted(keys: seq<string>, a: seq<Store>, b: seq<Store>)
    requires multiset(a) == multiset(b)
    ensures Total(keys, a) == Total(keys, b)
    decreases |a|
  {
    assert |a| == |multiset(a)| == |multiset(b)| == |b|;
    if |a| > 0 {
      assert a[0] in multiset(b);
      var k :| 0 <= k < |b| && b[k] == a[0];
      TotalRemoveAt(keys, a, 0);
      TotalRemoveAt(keys, b, k);
      TotalPermuted(keys, RemoveAt(a, 0), RemoveAt(b, k));
      ScorePermuted(keys, RemoveAt(a, 0), RemoveAt(b, k), a[0]);
    }
  }

  /** Replacing `was` by `now` changes the total by the difference of their scores against the rest. */
  lemma MoveChangesTotal(keys: seq<string>, before: seq<Store>, after: seq<Store>, rest: seq<Store>, was: Store, now: Store)
    requires multiset(before) == multiset(rest) + multiset{was}
    requires multiset(after) == multiset(rest) + multiset{now}
    ensures Total(keys, after) - Total(keys, before) == Score(keys, rest, now) - Score(keys, rest, was)
  {
    TotalPermuted(keys, before, rest + [was]);
    TotalPermuted(keys, after, rest + [now]);
    assert (rest + [was])[..|rest|] == rest == (rest + [now])[..|rest|];
  }

  // ---- bounds ----

  lemma {:induction false} PairBound(keys: seq<string>, i: nat, a: Store, o: Store)
    requires i <= |keys|
    ensures ScoreUpTo(keys, i, [a], o) + Pow100(|keys| - i) <= Pow100(|keys|)
  {
    if i > 0 {
      PairBound(keys, i - 1, a, o);
      SingleLevel(keys, i - 1, a, o);
      assert Pow100(|keys| - (i - 1)) == 100 * Pow100(|keys| - i);
    }
  }

  lemma {:induction false} ScoreBound(keys: seq<string>, stores: seq<Store>, o: Store)
    ensures Score(keys, stores, o) <= |stores| * Pow100(|keys|)
  {
    if |stores| == 0 {
      NoStores(keys, |keys|, o);
    } else {
      var front, last := stores[..|stores| - 1], stores[|stores| - 1];
      assert stores == front + [last];
      ScoreConcat(keys, |keys|, front, [last], o);
      ScoreBound(keys, front, o);
      PairBound(keys, |keys|, last, o);
      MulSucc(|front|, Pow100(|keys|));
    }
  }

  lemma {:induction false} NoStores(keys: seq<string>, i: nat, o: Store)
    requires i <= |keys|
    ensures ScoreUpTo(keys, i, [], o) == 0
  {
    if i > 0 {
      NoStores(keys, i - 1, o);
    }
  }

  lemma MulSucc(n: nat, p: nat)
    ensures (n + 1) * p == n * p + p
  {
  }

  lemma SquareSucc(n: nat, p: nat)
    ensures n * (n * p) + n * p <= (n + 1) * ((n + 1) * p)
  {
    assert (n + 1) * ((n + 1) * p) == (n + 1) * (n * p + p) == n * (n * p) + n * p + n * p + p;
  }

  lemma {:induction false} TotalBound(keys: seq<string>, stores: seq<Store>)
    ensures Total(keys, stores) <= |stores| * (|stores| * Pow100(|keys|))
  {
    if |stores| > 0 {
      var front := stores[..|stores| - 1];
      TotalBound(keys, front);
      ScoreBound(keys, front, stores[|stores| - 1]);
      SquareSucc(|front|, Pow100(|keys|));
    }
  }

  // ---- comparing scores is comparing location levels, first label first ----

  /** How many of the stores are other stores than o. */
  function Others(stores: seq<Store>, o: Store): nat
  {
    if |stores| == 0 then 0
    else Others(stores[..|stores| - 1], o) + (if stores[|stores| - 1].id != o.id then 1 else 0)
  }

  /** How many of the stores differ from o at level i. */
  function CountDiff(keys: seq<string>, i: nat, stores: seq<Store>, o: Store): (n: nat)
    requires i < |keys|
    ensures n <= Others(stores, o)
  {
    if |stores| == 0 then 0
    else CountDiff(keys, i, stores[..|stores| - 1], o) + (if Differs(keys, i, stores[|stores| - 1], o) then 1 else 0)
  }

  function Counts(keys: seq<string>, stores: seq<Store>, o: Store): (r: seq<nat>)
    ensures |r| == |keys|
    ensures forall i :: 0 <= i < |r| ==> r[i] == CountDiff(keys, i, stores, o)
  {
    seq(|keys|, i requires 0 <= i < |keys| => CountDiff(keys, i, stores, o))
  }

  /** Lexicographic order, decided at the first position where the two differ. */
  ghost predicate LexLt(a: seq<nat>, b: seq<nat>)
    requires |a| == |b|
  {
    exists k :: 0 <= k < |a| && a[..k] == b[..k] && a[k] < b[k]
  }

  function Value(d: seq<nat>): nat
  {
    if |d| == 0 then 0 else 100 * Value(d[..|d| - 1]) + d[|d| - 1]
  }

  /** The last position decides exactly when all earlier ones agree. */
  lemma LexLast(a: seq<nat>, b: seq<nat>)
    requires |a| == |b| > 0
    ensures var n := |a| - 1;
            LexLt(a, b) <==> LexLt(a[..n], b[..n]) || (a[..n] == b[..n] && a[n] < b[n])
  {
    var n := |a| - 1;
    var x, y := a[..n], b[..n];
    assert forall k :: 0 <= k <= n ==> x[..k] == a[..k] && y[..k] == b[..k];
    if LexLt(x, y) {
      var k :| 0 <= k < n && x[..k] == y[..k] && x[k] < y[k];
      assert a[..k] == b[..k] && a[k] < b[k];
    }
  }

  lemma LastDigit(x: nat, y: nat, i: nat, j: nat)
    requires i <= 99 && j <= 99
    ensures 100 * x + i < 100 * y + j <==> x < y || (x == y && i < j)
    ensures 100 * x + i == 100 * y + j ==> x == y && i == j
  {
  }

  lemma {:induction false} ValueLex(a: seq<nat>, b: seq<nat>)
    requires |a| == |b|
    requires forall i :: 0 <= i < |a| ==> a[i] <= 99 && b[i] <= 99
    ensures Value(a) < Value(b) <==> LexLt(a, b)
    ensures Value(a) == Value(b) ==> a == b
    decreases |a|
  {
    if |a| > 0 {
      var n := |a| - 1;
      var x, y := a[..n], b[..n];
      ValueLex(x, y);
      LexLast(a, b);
      LastDigit(Value(x), Value(y), a[n], b[n]);
      assert a == x + [a[n]] && b == y + [b[n]];
    }
  }

  lemma {:induction false} LevelIsCount(keys: seq<string>, i: nat, stores: seq<Store>, o: Store)
    requires i < |keys|
    ensures LevelScore(keys, i, stores, o) == CountDiff(keys, i, stores, o) * Pow100(|keys| - i - 1)
  {
    if |stores| > 0 {
      LevelIsCount(keys, i, stores[..|stores| - 1], o);
      MulSucc(CountDiff(keys, i, stores[..|stores| - 1], o), Pow100(|keys| - i - 1));
    }
  }

  lemma {:induction false} ScoreIsValue(keys: seq<string>, i: nat, stores: seq<Store>, o: Store)
    requires i <= |keys|
    ensures ScoreUpTo(keys, i, stores, o) == Value(Counts(keys, stores, o)[..i]) * Pow100(|keys| - i)
  {
    if i > 0 {
      var c := Counts(keys, stores, o);
      ScoreIsValue(keys, i - 1, stores, o);
      LevelIsCount(keys, i - 1, stores, o);
      assert c[..i][..i - 1] == c[..i - 1];
      Shift(Value(c[..i - 1]), c[i - 1], Pow100(|keys| - i));
    }
  }

  lemma Shift(v: nat, c: nat, p: nat)
    ensures v * (100 * p) + c * p == (100 * v + c) * p
  {
  }

  /** With at most 99 other replicas to compare against, one score is lower than another exactly when, at
      the first label level where the numbers of differently located replicas differ, it has fewer. */
  lemma ScoreComparesLevels(keys: seq<string>, s: seq<Store>, a: Store, t: seq<Store>, b: Store)
    requires Others(s, a) <= 99 && Others(t, b) <= 99
    ensures Score(keys, s, a) < Score(keys, t, b) <==> LexLt(Counts(keys, s, a), Counts(keys, t, b))
    ensures Score(keys, s, a) == Score(keys, t, b) <==> Counts(keys, s, a) == Counts(keys, t, b)
  {
    var c, d := Counts(keys, s, a), Counts(keys, t, b);
    ScoreIsValue(keys, |keys|, s, a);
    ScoreIsValue(keys, |keys|, t, b);
    assert c[..|keys|] == c && d[..|keys|] == d;
    ValueLex(c, d);
  }
}
