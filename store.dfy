/** The `tasks` table as the server keeps it, with the handlers' position logic as
    methods that update it in place. */
module TaskStore {
  import opened Tasks
  import opened Allocation
  import opened Rebalance
  import opened Reorder

  /** The decimal digits of `n`, as a template literal prints them. */
  function Decimal(n: nat): string {
    if n < 10 then ["0123456789"[n]] else Decimal(n / 10) + ["0123456789"[n % 10]]
  }

  /** The rows `POST /seed` inserts: ids from `firstId` on, the i-th (1-based) titled
      `Task i` at position `1000 * i`; `coin(i)` is that row's draw of
      `Math.random() > 0.5`. */
  function SeedRows(firstId: int, count: nat, coin: nat -> bool): seq<Task> {
    seq(count, i requires 0 <= i < count =>
      Task(firstId + i, "Task " + Decimal(i + 1), "Description for task " + Decimal(i + 1),
           coin(i + 1), Increment * (i + 1) as real))
  }

  /** Seeded rows are already in `(position, id)` order, 1000 apart, starting at 1000. */
  lemma SeedSpacing(firstId: int, count: nat, coin: nat -> bool)
    ensures var seeded := SeedRows(firstId, count, coin);
            && Sort(seeded) == seeded
            && (forall i :: 0 <= i < count ==> seeded[i].position == Increment * (i + 1) as real)
            && (forall i :: 1 <= i < count ==> seeded[i].position - seeded[i - 1].position == Increment)
            && !HasCollision(seeded)
  {
    var seeded := SeedRows(firstId, count, coin);
    SortKeepsIdsUnique(seeded);
    SortedUnique(seeded, Sort(seeded));
  }

  /** What the table always satisfies: unique ids, all below the next id to be handed
      out and at least 1, and positions at or above the floor. */
  ghost predicate WellFormed(rows: seq<Task>, nextId: int) {
    && UniqueIds(rows)
    && AtLeast(rows, Floor)
    && 1 <= nextId
    && forall j :: 0 <= j < |rows| ==> 1 <= rows[j].id < nextId
  }

  /** Rebalancing keeps the table well formed. */
  lemma RebalanceKeepsWellFormed(rows: seq<Task>, nextId: int)
    requires WellFormed(rows, nextId)
    ensures WellFormed(Rebalanced(rows), nextId)
  {
    RebalancedRows(rows);
  }

  /** Appending a row with the next id and a position at or above the floor keeps the
      table well formed once the next id moves on. */
  lemma AppendKeepsWellFormed(rows: seq<Task>, nextId: int, t: Task)
    requires WellFormed(rows, nextId) && t.id == nextId && t.position >= Floor
    ensures WellFormed(rows + [t], nextId + 1)
  {
    AppendFreshId(rows, t);
    var r := rows + [t];
    forall j | 0 <= j < |r|
      ensures r[j].position >= Floor && 1 <= r[j].id < nextId + 1
    {
      if j < |rows| {
        assert r[j] == rows[j];
      }
    }
  }

  /** A row with the next id at `getNextPosition()` keeps the table well formed and
      goes to the end of the ordered view. */
  lemma InsertAtTail(rows: seq<Task>, nextId: int, t: Task)
    requires WellFormed(rows, nextId) && t.id == nextId && t.position >= Floor
    requires forall j :: 0 <= j < |rows| ==> rows[j].position < t.position
    ensures WellFormed(rows + [t], nextId + 1)
    ensures Sort(rows + [t]) == Sort(rows) + [t]
  {
    AppendKeepsWellFormed(rows, nextId, t);
    AppendGoesLast(rows, t);
  }

  /** A reorder request keeps the table well formed. */
  lemma ReorderKeepsWellFormed(rows: seq<Task>, nextId: int, taskId: int, newPosition: int)
    requires WellFormed(rows, nextId)
    ensures WellFormed(ReorderResult(rows, taskId, newPosition).1, nextId)
  {
    ReorderKeepsInvariant(rows, taskId, newPosition);
  }

  /** The table right after the moving task's position is written is still well formed
      and still holds the task. */
  lemma WrittenWellFormed(rows: seq<Task>, nextId: int, taskId: int, newPosition: int)
    requires WellFormed(rows, nextId)
    requires var view := Sort(rows);
             var i := IndexOfId(view, taskId);
             i != -1 && i != Clamp(newPosition, |view|)
    ensures var view := Sort(rows);
            var i := IndexOfId(view, taskId);
            var written := Reposition(rows, map[taskId := CalculateNewPosition(view, i, Clamp(newPosition, |view|))]);
            WellFormed(written, nextId) && HasId(written, taskId)
  {
    WrittenRows(rows, taskId, newPosition);
  }

  class Store {
    /** The table in insertion order. */
    var rows: seq<Task>
    /** The id `AUTOINCREMENT` gives the next inserted row. */
    var nextId: int

    ghost predicate Valid()
      reads this
    {
      WellFormed(rows, nextId)
    }

    constructor ()
      ensures Valid() && rows == [] && nextId == 1
    {
      rows := [];
      nextId := 1;
    }

    /** `SELECT * FROM tasks ORDER BY position, id`. */
    function OrderedView(): seq<Task>
      reads this
    {
      Sort(rows)
    }

    /** `UPDATE tasks SET position = ? WHERE id = ?`. */
    method UpdatePosition(id: int, position: real)
      modifies this
      ensures rows == Reposition(old(rows), map[id := position])
      ensures nextId == old(nextId)
    {
      rows := Reposition(rows, map[id := position]);
    }

    /** `POST /tasks`: refuse an empty title; otherwise insert a task at
        `getNextPosition()`. It lands last in the ordered view and everything before it
        stays as it was. */
    method Create(title: string, description: string, completed: bool) returns (task: Option<Task>)
      requires Valid()
      modifies this
      ensures Valid()
      ensures title == [] ==> task == None && rows == old(rows) && nextId == old(nextId)
      ensures title != [] ==>
                && task == Some(Task(old(nextId), title, description, completed, NextPosition(MaxPosition(old(rows)))))
                && rows == old(rows) + [task.value] && nextId == old(nextId) + 1
                && OrderedView() == old(OrderedView()) + [task.value]
    {
      if title == [] {
        return None;
      }
      var position := NextPosition(MaxPosition(rows));
      var t := Task(nextId, title, description, completed, position);
      TailAllocation(rows);
      Append(t);
      task := Some(t);
    }

    /** `INSERT INTO tasks`: a row with the next id and a position above every other
        row goes to the end of the table and of the ordered view. */
    method Append(t: Task)
      requires Valid() && t.id == nextId && t.position >= Floor
      requires forall j :: 0 <= j < |rows| ==> rows[j].position < t.position
      modifies this
      ensures Valid()
      ensures rows == old(rows) + [t] && nextId == old(nextId) + 1
      ensures OrderedView() == old(OrderedView()) + [t]
    {
      ghost var before := rows;
      rows := rows + [t];
      nextId := nextId + 1;
      assert Valid() && OrderedView() == Sort(before) + [t] by {
        InsertAtTail(before, nextId - 1, t);
      }
      assert old(OrderedView()) == Sort(before);
    }

    /** `rebalancePositions`: read the ids in `(position, id)` order and rewrite the
        positions to 1000, 2000, 3000, ... */
    method RebalancePositions()
      requires Valid()
      modifies this
      ensures Valid() && nextId == old(nextId)
      ensures rows == Rebalanced(old(rows))
      ensures OrderedView() == Respaced(old(OrderedView()))
    {
      ghost var before := rows;
      var tasks := OrderedView();
      WritePositions(tasks);
      assert Valid() by {
        RebalanceKeepsWellFormed(before, nextId);
      }
      assert OrderedView() == Respaced(tasks) by {
        RebalancedSort(before);
      }
    }

    /** The loop of `rebalancePositions`: one `UPDATE` per row of `tasks`, in order,
        with a position counter that starts at 1000 and grows by 1000. */
    method WritePositions(tasks: seq<Task>)
      modifies this
      ensures rows == Reposition(old(rows), Spacing(tasks, |tasks|))
      ensures nextId == old(nextId)
    {
      var position := Increment;
      for k := 0 to |tasks|
        invariant rows == Reposition(old(rows), Spacing(tasks, k))
        invariant position == Increment * (k + 1) as real
        invariant nextId == old(nextId)
      {
        UpdatePosition(tasks[k].id, position);
        SpacingStep(old(rows), tasks, k);
        position := position + Increment;
      }
    }

    /** `POST /seed`: insert `count` tasks at positions 1000, 2000, ... whatever the
        table already holds. */
    method Seed(count: nat, coin: nat -> bool)
      requires Valid()
      modifies this
      ensures Valid()
      ensures rows == old(rows) + SeedRows(old(nextId), count, coin)
      ensures nextId == old(nextId) + count
    {
      var position := Increment;
      for i := 1 to count + 1
        invariant rows == old(rows) + SeedRows(old(nextId), i - 1, coin)
        invariant nextId == old(nextId) + i - 1
        invariant position == Increment * i as real
        invariant Valid()
      {
        var task := Task(nextId, "Task " + Decimal(i), "Description for task " + Decimal(i), coin(i), position);
        assert SeedRows(old(nextId), i, coin) == SeedRows(old(nextId), i - 1, coin) + [task];
        AppendKeepsWellFormed(rows, nextId, task);
        rows := rows + [task];
        nextId := nextId + 1;
        position := position + Increment;
      }
    }

    /** `POST /tasks/reorder`, from reading the snapshot to re-reading the task. */
    method Reorder(taskId: int, newPosition: int) returns (outcome: ReorderOutcome)
      requires Valid()
      modifies this
      ensures Valid() && nextId == old(nextId)
      ensures (outcome, rows) == ReorderResult(old(rows), taskId, newPosition)
    {
      ghost var before := rows;
      ReorderCommits(before, taskId, newPosition);
      ReorderKeepsWellFormed(before, nextId, taskId, newPosition);
      var allTasks := OrderedView();
      var currentIndex := IndexOfId(allTasks, taskId);
      if currentIndex == -1 {
        return NotFound;
      }
      var newPos := Clamp(newPosition, |allTasks|);
      if currentIndex == newPos {
        return Unchanged(allTasks[currentIndex]);
      }
      var newPositionValue := CalculateNewPosition(allTasks, currentIndex, newPos);
      WrittenWellFormed(before, nextId, taskId, newPosition);
      UpdatePosition(taskId, newPositionValue);
      var collided := ShouldRebalance(allTasks);
      if collided {
        ghost var written := rows;
        RebalancePositions();
        RepositionHasId(written, Spacing(Sort(written), |Sort(written)|), taskId);
      }
      var updatedTask := Lookup(rows, taskId);
      outcome := Reordered(updatedTask.value);
      assert (outcome, rows) == Commit(before, taskId, newPositionValue, collided);
    }

  }
}
