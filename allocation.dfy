/** Position values for a task appended at the tail (`getNextPosition`) and for a task
    dragged to a new rank (`calculateNewPosition`). */
module Allocation {
  import opened Tasks

  /** Gap between consecutive positions, and the position of a task in an empty table. */
  const Increment: real := 1000.0
  /** How far below the current head a task moved to the head is placed. */
  const HalfIncrement: real := 500.0
  /** The lowest position a move to the head produces. */
  const Floor: real := 1.0

  ghost predicate AtLeast(s: seq<Task>, lo: real) {
    forall j :: 0 <= j < |s| ==> s[j].position >= lo
  }

  /** Sorting keeps every row, so a lower bound on positions carries over. */
  lemma SortAtLeast(rows: seq<Task>, lo: real)
    requires AtLeast(rows, lo)
    ensures AtLeast(Sort(rows), lo)
  {
    var view := Sort(rows);
    forall j | 0 <= j < |view|
      ensures view[j].position >= lo
    {
      assert view[j] in multiset(rows);
      var p :| 0 <= p < |rows| && rows[p] == view[j];
    }
  }

  /** Writing positions no lower than `lo` keeps every position at or above `lo`. */
  lemma RepositionAtLeast(s: seq<Task>, m: map<int, real>, lo: real)
    requires AtLeast(s, lo)
    requires forall id :: id in m ==> m[id] >= lo
    ensures AtLeast(Reposition(s, m), lo)
  {
  }

  function Max(a: real, b: real): real {
    if a >= b then a else b
  }

  /** `SELECT MAX(position) FROM tasks`: NULL (None) on an empty table. */
  function MaxPosition(rows: seq<Task>): (r: Option<real>)
    ensures r.None? <==> rows == []
    ensures r.Some? ==> exists i :: 0 <= i < |rows| && rows[i].position == r.value
    ensures r.Some? ==> forall i :: 0 <= i < |rows| ==> rows[i].position <= r.value
  {
    if rows == [] then None
    else
      var m := MaxPosition(rows[1..]);
      if m.None? || rows[0].position > m.value then Some(rows[0].position)
      else
        assert exists i :: 0 <= i < |rows| && rows[i].position == m.value by {
          var i :| 0 <= i < |rows[1..]| && rows[1..][i].position == m.value;
          assert rows[i + 1].position == m.value;
        }
        m
  }

  /** `max_pos ? max_pos + 1000 : 1000`. JavaScript treats both NULL and 0 as false,
      so a maximum of exactly 0 also yields the initial position. */
  function NextPosition(maxPos: Option<real>): (r: real)
    ensures maxPos.None? ==> r == Increment
    ensures maxPos == Some(0.0) ==> r == Increment
    ensures maxPos.Some? && maxPos.value != 0.0 ==> r == maxPos.value + Increment
    ensures maxPos.Some? ==> r > maxPos.value
  {
    if maxPos.Some? && maxPos.value != 0.0 then maxPos.value + Increment else Increment
  }

  /** A new task is placed strictly after every task already in the table, 1000 above
      the highest one, and an empty table starts at the initial position. A maximum of
      exactly 0 takes the falsy branch, which gives the same 1000. */
  lemma TailAllocation(rows: seq<Task>)
    ensures rows == [] ==> NextPosition(MaxPosition(rows)) == Increment
    ensures forall j :: 0 <= j < |rows| ==> rows[j].position < NextPosition(MaxPosition(rows))
    ensures AtLeast(rows, Floor) ==> NextPosition(MaxPosition(rows)) >= Floor
    ensures rows != [] ==>
              exists j :: 0 <= j < |rows| && NextPosition(MaxPosition(rows)) == rows[j].position + Increment
                && forall i :: 0 <= i < |rows| ==> rows[i].position <= rows[j].position
  {
    if rows != [] {
      var j :| 0 <= j < |rows| && rows[j].position == MaxPosition(rows).value;
      assert NextPosition(MaxPosition(rows)) == rows[j].position + Increment;
    }
  }

  /** A row appended with a position above every other row comes last in the
      ordered view, and the rows before it keep their order. */
  lemma AppendGoesLast(rows: seq<Task>, t: Task)
    requires UniqueIds(rows + [t])
    requires forall j :: 0 <= j < |rows| ==> rows[j].position < t.position
    ensures Sort(rows + [t]) == Sort(rows) + [t]
  {
    var view := Sort(rows);
    SortBelow(rows, t.position);
    SortedAppend(view, t);
    assert multiset(rows + [t]) == multiset(view + [t]);
    SortKeepsIdsUnique(rows + [t]);
    SortedUnique(view + [t], Sort(rows + [t]));
  }

  /** Sorting keeps every row, so an upper bound on positions carries over. */
  lemma SortBelow(rows: seq<Task>, x: real)
    requires forall j :: 0 <= j < |rows| ==> rows[j].position < x
    ensures forall j :: 0 <= j < |Sort(rows)| ==> Sort(rows)[j].position < x
  {
    var view := Sort(rows);
    forall j | 0 <= j < |view|
      ensures view[j].position < x
    {
      assert view[j] in multiset(rows);
      var p :| 0 <= p < |rows| && rows[p] == view[j];
    }
  }

  lemma SortedAppend(s: seq<Task>, t: Task)
    requires Sorted(s)
    requires forall j :: 0 <= j < |s| ==> s[j].position < t.position
    ensures Sorted(s + [t])
  {
    var r := s + [t];
    forall a, b | 0 <= a < b < |r|
      ensures NotAfter(r[a], r[b])
    {
      assert r[a] == s[a];
    }
  }

  /** `allTasks.filter(t => t.id !== id)`. */
  function Without(s: seq<Task>, id: int): (r: seq<Task>)
    ensures |r| <= |s|
    ensures forall j :: 0 <= j < |r| ==> r[j].id != id && r[j] in s
  {
    if s == [] then []
    else if s[0].id != id then [s[0]] + Without(s[1..], id)
    else Without(s[1..], id)
  }

  lemma {:induction false} WithoutAbsent(s: seq<Task>, id: int)
    requires forall j :: 0 <= j < |s| ==> s[j].id != id
    ensures Without(s, id) == s
  {
    if s != [] {
      WithoutAbsent(s[1..], id);
      assert s == [s[0]] + s[1..];
    }
  }

  /** With unique ids the filter drops exactly the moving row and keeps the order of the
      others: `rest` has one row fewer than the snapshot. */
  lemma {:induction false} WithoutAt(s: seq<Task>, i: int)
    requires UniqueIds(s) && 0 <= i < |s|
    ensures Without(s, s[i].id) == s[..i] + s[i + 1..]
    ensures |Without(s, s[i].id)| == |s| - 1
  {
    var tail := s[1..];
    if i == 0 {
      forall j | 0 <= j < |tail|
        ensures tail[j].id != s[0].id
      {
        assert tail[j] == s[j + 1];
      }
      WithoutAbsent(tail, s[0].id);
    } else {
      assert s[0].id != s[i].id;
      UniqueTail(s);
      assert tail[i - 1] == s[i];
      WithoutAt(tail, i - 1);
      SpliceTail(s, i);
    }
  }

  lemma UniqueTail(s: seq<Task>)
    requires UniqueIds(s) && |s| > 0
    ensures UniqueIds(s[1..])
  {
    var tail := s[1..];
    forall a, b | 0 <= a < b < |tail|
      ensures tail[a].id != tail[b].id
    {
      assert tail[a] == s[a + 1] && tail[b] == s[b + 1];
    }
  }

  lemma SpliceTail(s: seq<Task>, i: int)
    requires 0 < i < |s|
    ensures s[..i] + s[i + 1..] == [s[0]] + (s[1..][..i - 1] + s[1..][i..])
  {
    assert s[1..][..i - 1] == s[1..i];
    assert s[1..][i..] == s[i + 1..];
    assert s[..i] == [s[0]] + s[1..i];
  }

  /** The rows of a sorted snapshot other than the one at `i` are still sorted. */
  lemma SortedWithout(s: seq<Task>, i: int)
    requires Sorted(s) && 0 <= i < |s|
    ensures Sorted(s[..i] + s[i + 1..])
  {
    var r := s[..i] + s[i + 1..];
    forall a, b | 0 <= a < b < |r|
      ensures NotAfter(r[a], r[b])
    {
      var a' := if a < i then a else a + 1;
      var b' := if b < i then b else b + 1;
      assert r[a] == s[a'] && r[b] == s[b'];
    }
  }

  /** `calculateNewPosition`: the position value for the row at `currentIndex` of the
      snapshot when it is dragged to rank `newPosition` among the other rows. The caller
      clamps `newPosition`; this function does not. */
  function CalculateNewPosition(allTasks: seq<Task>, currentIndex: int, newPosition: int): real
    requires 0 <= currentIndex < |allTasks|
    requires 0 <= newPosition
  {
    var rest := Without(allTasks, allTasks[currentIndex].id);
    if |rest| == 0 then Increment
    else if newPosition == 0 then Max(rest[0].position - HalfIncrement, Floor)
    else if newPosition >= |rest| then rest[|rest| - 1].position + Increment
    else
      var prev := rest[newPosition - 1];
      var next := rest[newPosition];
      prev.position + (next.position - prev.position) / 2.0
  }

  /** `Math.max(0, Math.min(newPosition, length - 1))`. */
  function Clamp(newPosition: int, length: int): (r: int)
    ensures length >= 1 ==> 0 <= r < length
    ensures 0 <= newPosition < length ==> r == newPosition
    ensures length >= 1 && newPosition >= length ==> r == length - 1
    ensures newPosition < 0 ==> r == 0
    ensures length <= 0 ==> r == 0
  {
    if newPosition < 0 then 0
    else if newPosition > length - 1 then (if length - 1 < 0 then 0 else length - 1)
    else newPosition
  }

  /** A task that is the only one in the snapshot gets the initial position. */
  lemma {:induction false} LoneMove(allTasks: seq<Task>, newPosition: int)
    requires |allTasks| == 1 && 0 <= newPosition
    ensures CalculateNewPosition(allTasks, 0, newPosition) == Increment
  {
    WithoutAbsent(allTasks[1..], allTasks[0].id);
  }

  /** In a snapshot whose positions are all at or above the floor, a move never
      computes a position below it. */
  lemma MoveAboveFloor(allTasks: seq<Task>, currentIndex: int, newPosition: int)
    requires 0 <= currentIndex < |allTasks| && 0 <= newPosition
    requires AtLeast(allTasks, Floor)
    ensures CalculateNewPosition(allTasks, currentIndex, newPosition) >= Floor
  {
    var rest := Without(allTasks, allTasks[currentIndex].id);
    forall j | 0 <= j < |rest|
      ensures rest[j].position >= Floor
    {
      var p :| 0 <= p < |allTasks| && allTasks[p] == rest[j];
    }
  }

  /** Move to the head: never below the floor, and strictly below the current head
      exactly when the current head is above the floor. */
  lemma HeadMove(allTasks: seq<Task>, currentIndex: int)
    requires 0 <= currentIndex < |allTasks|
    requires |Without(allTasks, allTasks[currentIndex].id)| > 0
    ensures var rest := Without(allTasks, allTasks[currentIndex].id);
            var r := CalculateNewPosition(allTasks, currentIndex, 0);
            r >= Floor && (r < rest[0].position <==> rest[0].position > Floor)
  {
  }

  /** Move to the tail of a sorted snapshot: strictly after every other row. */
  lemma TailMove(allTasks: seq<Task>, currentIndex: int, newPosition: int)
    requires Sorted(allTasks) && UniqueIds(allTasks)
    requires 0 <= currentIndex < |allTasks| && 2 <= |allTasks| <= newPosition + 1
    ensures var rest := Without(allTasks, allTasks[currentIndex].id);
            forall j :: 0 <= j < |rest| ==> rest[j].position < CalculateNewPosition(allTasks, currentIndex, newPosition)
  {
    WithoutAt(allTasks, currentIndex);
    SortedWithout(allTasks, currentIndex);
    SortedLast(Without(allTasks, allTasks[currentIndex].id));
  }

  /** No position of a sorted sequence is above its last one. */
  lemma SortedLast(s: seq<Task>)
    requires Sorted(s) && s != []
    ensures forall j :: 0 <= j < |s| ==> s[j].position <= s[|s| - 1].position
  {
    forall j | 0 <= j < |s|
      ensures s[j].position <= s[|s| - 1].position
    {
      assert j == |s| - 1 || NotAfter(s[j], s[|s| - 1]);
    }
  }

  /** Move between two rows of a sorted snapshot whose positions differ: the midpoint lies
      strictly between them, so exactly `newPosition` of the other rows lie below it. */
  lemma MiddleMove(allTasks: seq<Task>, currentIndex: int, newPosition: int)
    requires Sorted(allTasks) && UniqueIds(allTasks) && 0 <= currentIndex < |allTasks|
    requires var rest := Without(allTasks, allTasks[currentIndex].id);
             0 < newPosition < |rest| && rest[newPosition - 1].position < rest[newPosition].position
    ensures var rest := Without(allTasks, allTasks[currentIndex].id);
            var r := CalculateNewPosition(allTasks, currentIndex, newPosition);
            && rest[newPosition - 1].position < r < rest[newPosition].position
            && (forall j :: 0 <= j < newPosition ==> rest[j].position < r)
            && (forall j :: newPosition <= j < |rest| ==> r < rest[j].position)
  {
    WithoutAt(allTasks, currentIndex);
    SortedWithout(allTasks, currentIndex);
    var rest := Without(allTasks, allTasks[currentIndex].id);
    var prev, next := rest[newPosition - 1].position, rest[newPosition].position;
    var r := CalculateNewPosition(allTasks, currentIndex, newPosition);
    assert r == prev + (next - prev) / 2.0;
    Midpoint(prev, next);
    SortedSplit(rest, newPosition, r);
  }

  /** In a sorted sequence, a value strictly between the positions at `k - 1` and `k`
      lies above every position before `k` and below every position from `k` on. */
  lemma SortedSplit(rest: seq<Task>, k: int, r: real)
    requires Sorted(rest) && 0 < k < |rest|
    requires rest[k - 1].position < r < rest[k].position
    ensures forall j :: 0 <= j < k ==> rest[j].position < r
    ensures forall j :: k <= j < |rest| ==> r < rest[j].position
  {
    forall j | 0 <= j < k
      ensures rest[j].position < r
    {
      assert NotAfter(rest[j], rest[k - 1]) || j == k - 1;
    }
    forall j | k <= j < |rest|
      ensures r < rest[j].position
    {
      assert NotAfter(rest[k], rest[j]) || j == k;
    }
  }

  lemma Midpoint(a: real, b: real)
    requires a < b
    ensures a < a + (b - a) / 2.0 < b
  {
  }

  /** The caller's clamp keeps the target within `rest` plus its tail slot, so the
      neighbours read in the middle branch exist. */
  lemma ClampedTargetInRange(allTasks: seq<Task>, currentIndex: int, newPosition: int)
    requires UniqueIds(allTasks) && 0 <= currentIndex < |allTasks|
    ensures var rest := Without(allTasks, allTasks[currentIndex].id);
            var k := Clamp(newPosition, |allTasks|);
            0 <= k <= |rest|
  {
    WithoutAt(allTasks, currentIndex);
  }
}
