/** The position logic of `POST /tasks/reorder`: look the task up in a snapshot read in
    `(position, id)` order, clamp the target rank, stop if it is the current rank,
    otherwise write the moving task's new position and rebalance when the snapshot read
    before the move has a collision. */
module Reorder {
  import opened Tasks
  import opened Allocation
  import opened Rebalance

  datatype ReorderOutcome =
    | NotFound
      /** The clamped rank is the current one; nothing is written. */
    | Unchanged(task: Task)
      /** The task as re-read after the write (and the rebalance, if any). */
    | Reordered(task: Task)

  /** The table after a reorder request, and what the request answers. */
  function ReorderResult(rows: seq<Task>, taskId: int, newPosition: int): (ReorderOutcome, seq<Task>)
  {
    var allTasks := Sort(rows);
    var currentIndex := IndexOfId(allTasks, taskId);
    if currentIndex == -1 then (NotFound, rows)
    else
      var newPos := Clamp(newPosition, |allTasks|);
      if currentIndex == newPos then (Unchanged(allTasks[currentIndex]), rows)
      else
        PermutationHasId(allTasks, rows, taskId);
        Commit(rows, taskId, CalculateNewPosition(allTasks, currentIndex, newPos), HasCollision(allTasks))
  }

  /** The writes of a move that goes through: the moving task's new position, then the
      full rebalance when the snapshot had a collision; the answer is the task as
      re-read afterwards. */
  function Commit(rows: seq<Task>, taskId: int, value: real, collided: bool): (ReorderOutcome, seq<Task>)
    requires HasId(rows, taskId)
  {
    var written := Reposition(rows, map[taskId := value]);
    var final := if collided then Rebalanced(written) else written;
    RepositionHasId(rows, map[taskId := value], taskId);
    RepositionHasId(written, Spacing(Sort(written), |Sort(written)|), taskId);
    (Reordered(Lookup(final, taskId).value), final)
  }

  /** A request moves the task exactly when the id is known and the clamped rank differs
      from the current one; the move commits the value `calculateNewPosition` gives and
      rebalances exactly when the snapshot read before the move has a collision. */
  lemma ReorderCommits(rows: seq<Task>, taskId: int, newPosition: int)
    ensures var view := Sort(rows);
            var i := IndexOfId(view, taskId);
            var k := Clamp(newPosition, |view|);
            && (ReorderResult(rows, taskId, newPosition).0.Reordered? <==> HasId(rows, taskId) && i != k)
            && (HasId(rows, taskId) && i != k ==>
                  && 0 <= i < |view| && 0 <= k < |view| && |view| == |rows|
                  && ReorderResult(rows, taskId, newPosition)
                       == Commit(rows, taskId, CalculateNewPosition(view, i, k), HasCollision(view)))
  {
    var view := Sort(rows);
    PermutationHasId(view, rows, taskId);
    assert |view| == |multiset(view)| == |rows|;
  }

  /** Without a rebalance, a commit changes the moving row's position and nothing else,
      and answers that row. */
  lemma CommitOnlyMover(rows: seq<Task>, r: int, v: real)
    requires UniqueIds(rows) && 0 <= r < |rows|
    ensures var (outcome, final) := Commit(rows, rows[r].id, v, false);
            && |final| == |rows|
            && (forall j :: 0 <= j < |rows| && j != r ==> final[j] == rows[j])
            && final[r] == rows[r].(position := v)
            && outcome == Reordered(rows[r].(position := v))
  {
    LookupWritten(rows, r, v);
  }

  /** With a rebalance, a commit changes positions only, and answers the moving row. */
  lemma CommitRebalancedRows(rows: seq<Task>, r: int, v: real)
    requires UniqueIds(rows) && 0 <= r < |rows|
    ensures var (outcome, final) := Commit(rows, rows[r].id, v, true);
            && |final| == |rows|
            && (forall j :: 0 <= j < |rows| ==> final[j] == rows[j].(position := final[j].position))
            && outcome.task.id == rows[r].id && outcome.task in final
  {
    var m := map[rows[r].id := v];
    RepositionKeepsIds(rows, m);
    RebalancedRows(Reposition(rows, m));
  }

  /** Every row of `rest` before rank `k` sorts before `t`, and every row from `k` on
      sorts after it: `t` belongs at index `k`. */
  ghost predicate Lands(rest: seq<Task>, k: int, t: Task) {
    && 0 <= k <= |rest|
    && (forall j :: 0 <= j < k ==> Before(rest[j], t))
    && (forall j :: k <= j < |rest| ==> Before(t, rest[j]))
  }

  lemma LandsFromNeighbours(rest: seq<Task>, k: int, t: Task)
    requires Sorted(rest) && 0 <= k <= |rest|
    requires k > 0 ==> Before(rest[k - 1], t)
    requires k < |rest| ==> Before(t, rest[k])
    ensures Lands(rest, k, t)
  {
    forall j | 0 <= j < k
      ensures Before(rest[j], t)
    {
      assert j == k - 1 || NotAfter(rest[j], rest[k - 1]);
    }
    forall j | k <= j < |rest|
      ensures Before(t, rest[j])
    {
      assert j == k || NotAfter(rest[k], rest[j]);
    }
  }

  lemma SortedInsertAt(rest: seq<Task>, k: int, t: Task)
    requires Sorted(rest) && Lands(rest, k, t)
    ensures Sorted(rest[..k] + [t] + rest[k..])
  {
    var c := rest[..k] + [t] + rest[k..];
    forall a, b | 0 <= a < b < |c|
      ensures NotAfter(c[a], c[b])
    {
      if b < k {
        assert c[a] == rest[a] && c[b] == rest[b];
      } else if b == k {
        assert c[a] == rest[a] && c[b] == t;
      } else if a < k {
        assert c[a] == rest[a] && c[b] == rest[b - 1];
      } else if a == k {
        assert c[a] == t && c[b] == rest[b - 1];
      } else {
        assert c[a] == rest[a - 1] && c[b] == rest[b - 1];
      }
    }
  }

  /** Writing `v` to the row at index `i` of a view with unique ids changes that row
      and no other. */
  lemma RepositionOne(view: seq<Task>, i: int, v: real)
    requires UniqueIds(view) && 0 <= i < |view|
    ensures Reposition(view, map[view[i].id := v]) == view[..i] + [view[i].(position := v)] + view[i + 1..]
  {
    var spliced := view[..i] + [view[i].(position := v)] + view[i + 1..];
    forall j | 0 <= j < |view|
      ensures Reposition(view, map[view[i].id := v])[j] == spliced[j]
    {
      if j != i {
        assert view[j].id != view[i].id;
      }
    }
  }

  /** Taking the row at `i` out and putting `t` in at rank `k` of what is left keeps
      the same rows as putting `t` in its place. */
  lemma SpliceSameRows(view: seq<Task>, i: int, k: int, t: Task)
    requires 0 <= i < |view| && 0 <= k <= |view| - 1
    ensures var rest := view[..i] + view[i + 1..];
            multiset(rest[..k] + [t] + rest[k..]) == multiset(view[..i] + [t] + view[i + 1..])
  {
    var rest := view[..i] + view[i + 1..];
    assert rest == rest[..k] + rest[k..];
    calc {
      multiset(rest[..k] + [t] + rest[k..]);
      multiset(rest[..k]) + multiset{t} + multiset(rest[k..]);
      multiset(rest[..k]) + multiset(rest[k..]) + multiset{t};
      multiset(rest) + multiset{t};
      multiset(view[..i]) + multiset(view[i + 1..]) + multiset{t};
      multiset(view[..i]) + multiset{t} + multiset(view[i + 1..]);
      multiset(view[..i] + [t] + view[i + 1..]);
    }
  }

  /** Writing position `v` to the row at index `i` of the ordered view, when `v` puts
      it at rank `k` among the others, gives the view with that row moved to index `k`
      and every other row in its old relative order. */
  lemma MoveView(rows: seq<Task>, i: int, k: int, v: real)
    requires UniqueIds(rows) && 0 <= i < |rows|
    requires var view := Sort(rows);
             Lands(view[..i] + view[i + 1..], k, view[i].(position := v))
    ensures var view := Sort(rows);
            var rest := view[..i] + view[i + 1..];
            Sort(Reposition(rows, map[view[i].id := v])) == rest[..k] + [view[i].(position := v)] + rest[k..]
  {
    var view := Sort(rows);
    SortKeepsIdsUnique(rows);
    var m := map[view[i].id := v];
    var moved := view[i].(position := v);
    var rest := view[..i] + view[i + 1..];
    var placed := rest[..k] + [moved] + rest[k..];
    RepositionOne(view, i, v);
    RepositionPermutation(view, rows, m);
    SpliceSameRows(view, i, k, moved);
    SortedWithout(view, i);
    SortedInsertAt(rest, k, moved);
    var written := Reposition(rows, m);
    RepositionKeepsIds(rows, m);
    SortKeepsIdsUnique(written);
    SortedUnique(placed, Sort(written));
  }

  /** An unknown id answers not-found and writes nothing. */
  lemma ReorderNotFound(rows: seq<Task>, taskId: int, newPosition: int)
    ensures ReorderResult(rows, taskId, newPosition).0 == NotFound <==> !HasId(rows, taskId)
    ensures !HasId(rows, taskId) ==> ReorderResult(rows, taskId, newPosition).1 == rows
  {
    PermutationHasId(Sort(rows), rows, taskId);
  }

  /** A clamped rank equal to the current index answers unchanged with the task as read
      and writes nothing; in particular a table of one task never changes. */
  lemma ReorderUnchanged(rows: seq<Task>, taskId: int, newPosition: int)
    ensures var view := Sort(rows);
            var (outcome, final) := ReorderResult(rows, taskId, newPosition);
            && (outcome.Unchanged? <==> HasId(rows, taskId) && IndexOfId(view, taskId) == Clamp(newPosition, |view|))
            && (outcome.Unchanged? ==> final == rows && outcome.task in rows && outcome.task.id == taskId)
            && (|rows| == 1 && HasId(rows, taskId) ==> outcome.Unchanged?)
  {
    var view := Sort(rows);
    PermutationHasId(view, rows, taskId);
    var i := IndexOfId(view, taskId);
    if i != -1 {
      assert view[i] in multiset(rows);
    }
  }

  /** Re-reading a row after writing its position gives the row with that position. */
  lemma LookupWritten(rows: seq<Task>, r: int, v: real)
    requires UniqueIds(rows) && 0 <= r < |rows|
    ensures Lookup(Reposition(rows, map[rows[r].id := v]), rows[r].id) == Some(rows[r].(position := v))
  {
    var written := Reposition(rows, map[rows[r].id := v]);
    var w := IndexOfId(written, rows[r].id);
    assert written[r].id == rows[r].id;
    assert rows[w].id == rows[r].id;
  }

  /** A move that goes through when the snapshot has no collision writes only the moving
      task: every other row is untouched and the moving row changes only its position,
      to the value `calculateNewPosition` gives. The answer is that row as re-read. */
  lemma ReorderWritesOnlyMover(rows: seq<Task>, taskId: int, newPosition: int)
    requires UniqueIds(rows)
    requires ReorderResult(rows, taskId, newPosition).0.Reordered?
    requires !HasCollision(Sort(rows))
    ensures var view := Sort(rows);
            var i := IndexOfId(view, taskId);
            var v := CalculateNewPosition(view, i, Clamp(newPosition, |view|));
            var (outcome, final) := ReorderResult(rows, taskId, newPosition);
            && |final| == |rows|
            && (forall j :: 0 <= j < |rows| && rows[j].id != taskId ==> final[j] == rows[j])
            && (forall j :: 0 <= j < |rows| && rows[j].id == taskId ==> final[j] == rows[j].(position := v))
            && outcome.task == view[i].(position := v)
  {
    var view := Sort(rows);
    var i := IndexOfId(view, taskId);
    ReorderCommits(rows, taskId, newPosition);
    assert view[i] in multiset(rows);
    var r :| 0 <= r < |rows| && rows[r] == view[i];
    CommitOnlyMover(rows, r, CalculateNewPosition(view, i, Clamp(newPosition, |view|)));
    forall j | 0 <= j < |rows| && rows[j].id == taskId
      ensures j == r
    {
    }
  }


  /** A move that goes through when the snapshot had a collision rewrites the whole
      table, but only positions: every row keeps its id and other fields, and the
      answer is the moving task as re-read. */
  lemma ReorderRebalancesRows(rows: seq<Task>, taskId: int, newPosition: int)
    requires UniqueIds(rows)
    requires ReorderResult(rows, taskId, newPosition).0.Reordered?
    requires HasCollision(Sort(rows))
    ensures var (outcome, final) := ReorderResult(rows, taskId, newPosition);
            && |final| == |rows|
            && (forall j :: 0 <= j < |rows| ==> final[j] == rows[j].(position := final[j].position))
            && outcome.task.id == taskId && outcome.task in final
  {
    var view := Sort(rows);
    var i := IndexOfId(view, taskId);
    ReorderCommits(rows, taskId, newPosition);
    assert view[i] in multiset(rows);
    var r :| 0 <= r < |rows| && rows[r] == view[i];
    CommitRebalancedRows(rows, r, CalculateNewPosition(view, i, Clamp(newPosition, |view|)));
  }


  /** After a move with a collision in the snapshot, the ordered view reads 1000, 2000,
      3000, ... and has no collision left. */
  lemma ReorderRebalancesView(rows: seq<Task>, taskId: int, newPosition: int)
    requires UniqueIds(rows)
    requires ReorderResult(rows, taskId, newPosition).0.Reordered?
    requires HasCollision(Sort(rows))
    ensures var final := ReorderResult(rows, taskId, newPosition).1;
            && (forall k :: 0 <= k < |final| ==> Sort(final)[k].position == Increment * (k + 1) as real)
            && !HasCollision(Sort(final))
  {
    var view := Sort(rows);
    var i := IndexOfId(view, taskId);
    var v := CalculateNewPosition(view, i, Clamp(newPosition, |view|));
    ReorderCommits(rows, taskId, newPosition);
    var written := Reposition(rows, map[taskId := v]);
    assert ReorderResult(rows, taskId, newPosition).1 == Rebalanced(written);
    RepositionKeepsIds(rows, map[taskId := v]);
    RebalancedView(written);
    assert |Sort(Rebalanced(written))| == |Rebalanced(written)|;
  }


  /** Where the moved task ends up in the ordered view: if its new value puts it at the
      clamped rank among the other rows, the view afterwards is the old view with the
      task taken out and put back at that rank, respaced to 1000, 2000, ... when the
      snapshot read before the move had a collision. */
  lemma ReorderPlacement(rows: seq<Task>, taskId: int, newPosition: int)
    requires UniqueIds(rows)
    requires ReorderResult(rows, taskId, newPosition).0.Reordered?
    ensures var view := Sort(rows);
            var i := IndexOfId(view, taskId);
            var k := Clamp(newPosition, |view|);
            var rest := view[..i] + view[i + 1..];
            var moved := view[i].(position := CalculateNewPosition(view, i, k));
            var placed := rest[..k] + [moved] + rest[k..];
            Lands(rest, k, moved) ==>
              Sort(ReorderResult(rows, taskId, newPosition).1) == if HasCollision(view) then Respaced(placed) else placed
  {
    var view := Sort(rows);
    var i := IndexOfId(view, taskId);
    var k := Clamp(newPosition, |view|);
    var rest := view[..i] + view[i + 1..];
    var v := CalculateNewPosition(view, i, k);
    var moved := view[i].(position := v);
    if Lands(rest, k, moved) {
      MoveView(rows, i, k, v);
      var written := Reposition(rows, map[taskId := v]);
      if HasCollision(view) {
        RepositionKeepsIds(rows, map[taskId := v]);
        RebalancedView(written);
      }
    }
  }

  /** When the new value puts the task at its target rank: always at the tail; in the
      middle whenever its new neighbours have different positions; at the head exactly
      when the current head is above the floor, or sits on it and has a larger id (the
      floor then ties them and the id decides). */
  lemma MoveLands(view: seq<Task>, i: int, k: int)
    requires Sorted(view) && UniqueIds(view)
    requires 0 <= i < |view| && 0 <= k < |view| && i != k
    ensures var rest := view[..i] + view[i + 1..];
            var moved := view[i].(position := CalculateNewPosition(view, i, k));
            && (k == |rest| ==> Lands(rest, k, moved))
            && (0 < k < |rest| && rest[k - 1].position < rest[k].position ==> Lands(rest, k, moved))
            && (k == 0 ==> (Lands(rest, k, moved) <==>
                              rest[0].position > Floor || (rest[0].position == Floor && view[i].id < rest[0].id)))
  {
    var rest := view[..i] + view[i + 1..];
    WithoutAt(view, i);
    SortedWithout(view, i);
    var v := CalculateNewPosition(view, i, k);
    var moved := view[i].(position := v);
    if k == |rest| {
      TailMove(view, i, k);
      LandsFromNeighbours(rest, k, moved);
    } else if 0 < k {
      if rest[k - 1].position < rest[k].position {
        MiddleMove(view, i, k);
        LandsFromNeighbours(rest, k, moved);
      }
    } else {
      HeadMove(view, i);
      if Before(moved, rest[0]) {
        LandsFromNeighbours(rest, 0, moved);
      }
    }
  }

  /** Without a collision in the snapshot, a move to any rank but the head, or to the
      head above a head that is above the floor, puts the task exactly at the clamped
      rank and leaves every other task in its old relative order. */
  lemma ReorderExact(rows: seq<Task>, taskId: int, newPosition: int)
    requires UniqueIds(rows)
    requires ReorderResult(rows, taskId, newPosition).0.Reordered?
    requires !HasCollision(Sort(rows))
    ensures var view := Sort(rows);
            var i := IndexOfId(view, taskId);
            var k := Clamp(newPosition, |view|);
            var rest := view[..i] + view[i + 1..];
            var moved := view[i].(position := CalculateNewPosition(view, i, k));
            k != 0 || rest[0].position > Floor ==>
              Sort(ReorderResult(rows, taskId, newPosition).1) == rest[..k] + [moved] + rest[k..]
  {
    var view := Sort(rows);
    var i := IndexOfId(view, taskId);
    var k := Clamp(newPosition, |view|);
    var rest := view[..i] + view[i + 1..];
    SortKeepsIdsUnique(rows);
    MoveLands(view, i, k);
    ReorderPlacement(rows, taskId, newPosition);
    if 0 < k < |rest| {
      if i < k {
        assert rest[k - 1] == view[k] && rest[k] == view[k + 1];
        NoCollisionStrict(view, k + 1);
      } else {
        assert rest[k - 1] == view[k - 1] && rest[k] == view[k];
        NoCollisionStrict(view, k);
      }
    }
  }

  /** A row put at rank 0 or 1 with the same position as the first other row sits
      next to it with no gap. */
  lemma TieCollides(rest: seq<Task>, k: int, t: Task)
    requires 0 <= k <= 1 && 1 <= |rest| && rest[0].position == t.position
    ensures HasCollision(rest[..k] + [t] + rest[k..])
  {
    var after := rest[..k] + [t] + rest[k..];
    if k == 0 {
      assert after[0] == t && after[1] == rest[0];
    } else {
      assert after[0] == rest[0] && after[1] == t;
    }
  }

  /** Where a task moved to the floor lands in a collision-free view whose head (other
      than the task) sits on the floor: before that head when its id is smaller, right
      after it otherwise. */
  lemma HeadTieLands(view: seq<Task>, i: int)
    requires Sorted(view) && UniqueIds(view) && 0 <= i < |view| && 2 <= |view|
    requires !HasCollision(view) && (view[..i] + view[i + 1..])[0].position == Floor
    ensures var rest := view[..i] + view[i + 1..];
            Lands(rest, if view[i].id < rest[0].id then 0 else 1, view[i].(position := Floor))
  {
    var rest := view[..i] + view[i + 1..];
    SortedWithout(view, i);
    var moved := view[i].(position := Floor);
    var a := if i == 0 then 1 else 0;
    assert rest[0] == view[a];
    if view[i].id < rest[0].id {
      LandsFromNeighbours(rest, 0, moved);
    } else {
      if |rest| > 1 {
        var b := if i <= 1 then 2 else 1;
        assert rest[1] == view[b];
        NoCollisionIncreasing(view, a, b);
      }
      LandsFromNeighbours(rest, 1, moved);
    }
  }

  /** Moving a task to the floor at the head of a collision-free view whose head sits on
      the floor leaves a collision in the view afterwards. */
  lemma HeadTieCollides(rows: seq<Task>, i: int)
    requires UniqueIds(rows) && 0 <= i < |rows| && 2 <= |rows|
    requires var view := Sort(rows);
             !HasCollision(view) && (view[..i] + view[i + 1..])[0].position == Floor
    ensures HasCollision(Sort(Reposition(rows, map[Sort(rows)[i].id := Floor])))
  {
    var view := Sort(rows);
    SortKeepsIdsUnique(rows);
    var rest := view[..i] + view[i + 1..];
    var k := if view[i].id < rest[0].id then 0 else 1;
    HeadTieLands(view, i);
    MoveView(rows, i, k, Floor);
    TieCollides(rest, k, view[i].(position := Floor));
  }

  /** The collision check reads the snapshot from before the move, so a collision the
      move itself creates waits for a later reorder: moving a task to the head when the
      head already sits on the floor puts both on the floor, and nothing is rebalanced. */
  lemma CollisionLeftForLater(rows: seq<Task>, taskId: int, newPosition: int)
    requires UniqueIds(rows)
    requires ReorderResult(rows, taskId, newPosition).0.Reordered?
    requires !HasCollision(Sort(rows)) && newPosition <= 0
    requires var view := Sort(rows);
             var i := IndexOfId(view, taskId);
             (view[..i] + view[i + 1..])[0].position == Floor
    ensures var final := ReorderResult(rows, taskId, newPosition).1;
            final == Reposition(rows, map[taskId := Floor]) && HasCollision(Sort(final))
  {
    var view := Sort(rows);
    var i := IndexOfId(view, taskId);
    assert i != -1 && Clamp(newPosition, |view|) == 0 && i != 0;
    assert |view| == |multiset(view)| == |rows|;
    SortKeepsIdsUnique(rows);
    WithoutAt(view, i);
    var v := CalculateNewPosition(view, i, 0);
    assert v == Floor;
    var written := Reposition(rows, map[taskId := v]);
    assert ReorderResult(rows, taskId, newPosition).1 == written;
    HeadTieCollides(rows, i);
  }

  /** The table right after the single-row write of a move that goes through, before
      any rebalance: same ids, still unique, still at or above the floor. */
  lemma WrittenRows(rows: seq<Task>, taskId: int, newPosition: int)
    requires UniqueIds(rows) && AtLeast(rows, Floor)
    requires var view := Sort(rows);
             var i := IndexOfId(view, taskId);
             i != -1 && i != Clamp(newPosition, |view|)
    ensures var view := Sort(rows);
            var i := IndexOfId(view, taskId);
            var written := Reposition(rows, map[taskId := CalculateNewPosition(view, i, Clamp(newPosition, |view|))]);
            && |written| == |rows|
            && (forall j :: 0 <= j < |rows| ==> written[j].id == rows[j].id)
            && UniqueIds(written) && AtLeast(written, Floor)
            && HasId(written, taskId)
  {
    var view := Sort(rows);
    var i := IndexOfId(view, taskId);
    var k := Clamp(newPosition, |view|);
    var m := map[taskId := CalculateNewPosition(view, i, k)];
    SortAtLeast(rows, Floor);
    MoveAboveFloor(view, i, k);
    RepositionAtLeast(rows, m, Floor);
    RepositionKeepsIds(rows, m);
    PermutationHasId(view, rows, taskId);
  }


  /** A reorder keeps the ids of the rows, keeps them unique, and never writes a
      position below the floor into a table whose positions are all at or above it. */
  lemma ReorderKeepsInvariant(rows: seq<Task>, taskId: int, newPosition: int)
    requires UniqueIds(rows) && AtLeast(rows, Floor)
    ensures var final := ReorderResult(rows, taskId, newPosition).1;
            && |final| == |rows|
            && (forall j :: 0 <= j < |rows| ==> final[j].id == rows[j].id)
            && UniqueIds(final) && AtLeast(final, Floor)
  {
    var view := Sort(rows);
    var i := IndexOfId(view, taskId);
    var k := Clamp(newPosition, |view|);
    ReorderCommits(rows, taskId, newPosition);
    if i != -1 && i != k {
      var written := Reposition(rows, map[taskId := CalculateNewPosition(view, i, k)]);
      WrittenRows(rows, taskId, newPosition);
      if HasCollision(view) {
        RebalancedRows(written);
      }
    }
  }
}
