/** Collision detection (`shouldRebalance`) and the full rewrite of positions to
    1000, 2000, 3000, ... (`rebalancePositions`). */
module Rebalance {
  import opened Tasks
  import opened Allocation

  /** Adjacent positions closer than this count as a collision. */
  const Epsilon: real := 0.001

  /** Some adjacent pair of the snapshot is less than `Epsilon` apart. */
  predicate HasCollision(s: seq<Task>) {
    exists i :: 1 <= i < |s| && s[i].position - s[i - 1].position < Epsilon
  }

  /** `shouldRebalance`: scans adjacent pairs and stops at the first collision. */
  method ShouldRebalance(allTasks: seq<Task>) returns (collided: bool)
    ensures collided <==> HasCollision(allTasks)
    ensures |allTasks| <= 1 ==> !collided
  {
    var i := 1;
    while i < |allTasks|
      invariant 1 <= i
      invariant forall j :: 1 <= j < i && j < |allTasks| ==> allTasks[j].position - allTasks[j - 1].position >= Epsilon
    {
      if allTasks[i].position - allTasks[i - 1].position < Epsilon {
        return true;
      }
      i := i + 1;
    }
    return false;
  }

  /** Without a collision every position is strictly above the one before it. */
  lemma NoCollisionStrict(s: seq<Task>, i: int)
    requires !HasCollision(s) && 1 <= i < |s|
    ensures s[i - 1].position < s[i].position
  {
    assert s[i].position - s[i - 1].position >= Epsilon;
  }

  /** Without a collision positions strictly increase along the whole snapshot. */
  lemma {:induction false} NoCollisionIncreasing(s: seq<Task>, a: int, b: int)
    requires !HasCollision(s) && 0 <= a < b < |s|
    ensures s[a].position < s[b].position
    decreases b - a
  {
    NoCollisionStrict(s, b);
    if a < b - 1 {
      NoCollisionIncreasing(s, a, b - 1);
    }
  }

  /** The snapshot with the k-th row (0-based) at position `1000 * (k + 1)`. */
  function Respaced(view: seq<Task>): seq<Task> {
    seq(|view|, k requires 0 <= k < |view| => view[k].(position := Increment * (k + 1) as real))
  }

  /** The positions the first `k` rows of the snapshot are given, by id. */
  function Spacing(view: seq<Task>, k: nat): map<int, real>
    requires k <= |view|
  {
    if k == 0 then map[] else Spacing(view, k - 1)[view[k - 1].id := Increment * k as real]
  }

  /** `rebalancePositions` as a whole: read the ids in `(position, id)` order and give
      the k-th of them the position `1000 * (k + 1)`. */
  function Rebalanced(rows: seq<Task>): seq<Task> {
    var view := Sort(rows);
    Reposition(rows, Spacing(view, |view|))
  }

  lemma {:induction false} SpacingAt(view: seq<Task>, k: nat)
    requires UniqueIds(view) && k <= |view|
    ensures forall j :: 0 <= j < k ==> view[j].id in Spacing(view, k) && Spacing(view, k)[view[j].id] == Increment * (j + 1) as real
    ensures forall id :: id in Spacing(view, k) ==> Spacing(view, k)[id] >= Increment
  {
    if k > 0 {
      SpacingAt(view, k - 1);
    }
  }

  lemma RepositionBySpacing(view: seq<Task>)
    requires UniqueIds(view)
    ensures Reposition(view, Spacing(view, |view|)) == Respaced(view)
  {
    SpacingAt(view, |view|);
    var m := Spacing(view, |view|);
    var a, b := Reposition(view, m), Respaced(view);
    forall k | 0 <= k < |view|
      ensures a[k] == b[k]
    {
      assert view[k].id in m;
    }
  }

  /** The respaced snapshot is in `(position, id)` order: its positions strictly increase. */
  lemma RespacedSorted(view: seq<Task>)
    ensures Sorted(Respaced(view))
  {
  }

  /** Reading the table back after rebalancing gives the old ordered view, respaced. */
  lemma RebalancedSort(rows: seq<Task>)
    requires UniqueIds(rows)
    ensures Sort(Rebalanced(rows)) == Respaced(Sort(rows))
  {
    var view := Sort(rows);
    var m := Spacing(view, |view|);
    SortKeepsIdsUnique(rows);
    RepositionBySpacing(view);
    RepositionPermutation(view, rows, m);
    RepositionKeepsIds(rows, m);
    SortKeepsIdsUnique(Rebalanced(rows));
    RespacedSorted(view);
    SortedUnique(Respaced(view), Sort(Rebalanced(rows)));
  }

  /** After rebalancing, the k-th task of the ordered view is the k-th task before it,
      with the position `1000 * (k + 1)` and every other field unchanged; the gap between
      neighbours is exactly 1000, so no collision remains. */
  lemma RebalancedView(rows: seq<Task>)
    requires UniqueIds(rows)
    ensures Sort(Rebalanced(rows)) == Respaced(Sort(rows))
    ensures var before, after := Sort(rows), Sort(Rebalanced(rows));
            && |after| == |before| == |rows|
            && (forall k :: 0 <= k < |after| ==> after[k] == before[k].(position := Increment * (k + 1) as real))
            && (forall k :: 1 <= k < |after| ==> after[k].position - after[k - 1].position == Increment)
            && !HasCollision(after)
  {
    var before, after := Sort(rows), Sort(Rebalanced(rows));
    RebalancedSort(rows);
    assert after == Respaced(before);
    RespacedGaps(before);
    forall k | 0 <= k < |after|
      ensures after[k] == before[k].(position := Increment * (k + 1) as real)
    {
    }
  }

  /** Consecutive respaced positions are exactly 1000 apart, so none collide. */
  lemma RespacedGaps(view: seq<Task>)
    ensures forall k :: 1 <= k < |Respaced(view)| ==> Respaced(view)[k].position - Respaced(view)[k - 1].position == Increment
    ensures !HasCollision(Respaced(view))
  {
    var after := Respaced(view);
    forall k | 1 <= k < |after|
      ensures after[k].position - after[k - 1].position == Increment
    {
      assert after[k].position == Increment * (k + 1) as real;
      assert after[k - 1].position == Increment * k as real;
    }
  }

  /** Writing the next spacing position to the next row of the snapshot extends the
      spacing by that row. */
  lemma SpacingStep(rows: seq<Task>, view: seq<Task>, k: nat)
    requires k < |view|
    ensures Reposition(Reposition(rows, Spacing(view, k)), map[view[k].id := Increment * (k + 1) as real])
            == Reposition(rows, Spacing(view, k + 1))
  {
    RepositionTwice(rows, Spacing(view, k), view[k].id, Increment * (k + 1) as real);
  }

  /** Rebalancing rewrites only positions: every row keeps its id and other fields, and
      lands at a positive multiple of 1000 no lower than the first. */
  lemma RebalancedRows(rows: seq<Task>)
    requires UniqueIds(rows)
    ensures |Rebalanced(rows)| == |rows|
    ensures forall i :: 0 <= i < |rows| ==> Rebalanced(rows)[i] == rows[i].(position := Rebalanced(rows)[i].position)
    ensures AtLeast(Rebalanced(rows), Increment)
    ensures UniqueIds(Rebalanced(rows))
  {
    var view := Sort(rows);
    var m := Spacing(view, |view|);
    SortKeepsIdsUnique(rows);
    SpacingAt(view, |view|);
    RepositionKeepsIds(rows, m);
    forall i | 0 <= i < |rows|
      ensures rows[i].id in m
    {
      assert rows[i] in multiset(view);
      var j :| 0 <= j < |view| && view[j] == rows[i];
    }
  }
}
