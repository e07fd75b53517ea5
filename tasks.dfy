/** Rows of the `tasks` table and the order in which every query reads them
    (`ORDER BY position, id`). */
module Tasks {

  datatype Option<T> = None | Some(value: T)

  /** One row of the table. `created_at` and `updated_at` are not modelled. */
  datatype Task = Task(id: int, title: string, description: string, completed: bool, position: real)

  /** `a` sorts strictly before `b` under `ORDER BY position, id`. */
  predicate Before(a: Task, b: Task) {
    a.position < b.position || (a.position == b.position && a.id < b.id)
  }

  /** `a` does not sort after `b` under `ORDER BY position, id`. */
  predicate NotAfter(a: Task, b: Task) {
    a.position < b.position || (a.position == b.position && a.id <= b.id)
  }

  ghost predicate Sorted(s: seq<Task>) {
    forall i, j :: 0 <= i < j < |s| ==> NotAfter(s[i], s[j])
  }

  /** The primary key: no two rows share an id. */
  ghost predicate UniqueIds(s: seq<Task>) {
    forall i, j :: 0 <= i < j < |s| ==> s[i].id != s[j].id
  }

  ghost predicate HasId(s: seq<Task>, id: int) {
    exists j :: 0 <= j < |s| && s[j].id == id
  }

  /** Inserts `t` into `s` in front of the first row it does not sort after. */
  function Insert(t: Task, s: seq<Task>): (r: seq<Task>)
    ensures multiset(r) == multiset(s) + multiset{t}
  {
    if s == [] then [t]
    else if NotAfter(t, s[0]) then [t] + s
    else
      assert s == [s[0]] + s[1..];
      [s[0]] + Insert(t, s[1..])
  }

  lemma {:induction false} InsertSorted(t: Task, s: seq<Task>)
    requires Sorted(s)
    ensures Sorted(Insert(t, s))
  {
    if s != [] && !NotAfter(t, s[0]) {
      InsertSorted(t, s[1..]);
      SortedTail(s);
      InsertAbove(t, s[1..], s[0]);
      SortedCons(s[0], Insert(t, s[1..]));
    }
  }

  lemma SortedTail(s: seq<Task>)
    requires Sorted(s) && s != []
    ensures Sorted(s[1..])
    ensures forall j :: 0 <= j < |s[1..]| ==> NotAfter(s[0], s[1..][j])
  {
    var tail := s[1..];
    forall a, b | 0 <= a < b < |tail|
      ensures NotAfter(tail[a], tail[b])
    {
      assert tail[a] == s[a + 1] && tail[b] == s[b + 1];
    }
    forall j | 0 <= j < |tail|
      ensures NotAfter(s[0], tail[j])
    {
      assert tail[j] == s[j + 1];
    }
  }

  /** If `h` sorts no later than `t` and every row of `s`, it sorts no later than every
      row of `Insert(t, s)`. */
  lemma InsertAbove(t: Task, s: seq<Task>, h: Task)
    requires NotAfter(h, t)
    requires forall j :: 0 <= j < |s| ==> NotAfter(h, s[j])
    ensures forall j :: 0 <= j < |Insert(t, s)| ==> NotAfter(h, Insert(t, s)[j])
  {
    var r := Insert(t, s);
    forall j | 0 <= j < |r|
      ensures NotAfter(h, r[j])
    {
      assert r[j] in multiset(s) + multiset{t};
      if r[j] != t {
        assert r[j] in multiset(s);
        var p :| 0 <= p < |s| && s[p] == r[j];
      }
    }
  }

  lemma SortedCons(h: Task, s: seq<Task>)
    requires Sorted(s)
    requires forall j :: 0 <= j < |s| ==> NotAfter(h, s[j])
    ensures Sorted([h] + s)
  {
    var r := [h] + s;
    forall a, b | 0 <= a < b < |r|
      ensures NotAfter(r[a], r[b])
    {
      assert r[b] == s[b - 1];
      if a > 0 {
        assert r[a] == s[a - 1];
      }
    }
  }

  /** The rows as `SELECT ... ORDER BY position, id` returns them. */
  function Sort(s: seq<Task>): (r: seq<Task>)
    ensures Sorted(r)
    ensures multiset(r) == multiset(s)
    ensures |r| == |s|
  {
    if s == [] then []
    else
      assert s == [s[0]] + s[1..];
      assert |multiset(s)| == |s|;
      InsertSorted(s[0], Sort(s[1..]));
      Insert(s[0], Sort(s[1..]))
  }

  lemma {:induction false} InsertKeepsIdsUnique(t: Task, s: seq<Task>)
    requires Sorted(s) && UniqueIds(s)
    requires forall j :: 0 <= j < |s| ==> s[j].id != t.id
    ensures UniqueIds(Insert(t, s))
  {
    if s != [] && !NotAfter(t, s[0]) {
      InsertKeepsIdsUnique(t, s[1..]);
      var tail := Insert(t, s[1..]);
      forall j | 0 <= j < |tail|
        ensures tail[j].id != s[0].id
      {
        assert tail[j] in multiset(s[1..]) + multiset{t};
      }
    }
  }

  /** Sorting keeps the primary key a key. */
  lemma {:induction false} SortKeepsIdsUnique(s: seq<Task>)
    requires UniqueIds(s)
    ensures UniqueIds(Sort(s))
  {
    if s != [] {
      SortKeepsIdsUnique(s[1..]);
      var sorted := Sort(s[1..]);
      forall j | 0 <= j < |sorted|
        ensures sorted[j].id != s[0].id
      {
        assert sorted[j] in multiset(s[1..]);
      }
      InsertKeepsIdsUnique(s[0], sorted);
    }
  }

  /** Two sorted orderings of the same rows are the same sequence when ids are unique:
      `ORDER BY position, id` is a total order on the rows of one table. */
  lemma {:induction false} SortedUnique(s: seq<Task>, t: seq<Task>)
    requires Sorted(s) && Sorted(t) && UniqueIds(t)
    requires multiset(s) == multiset(t)
    ensures s == t
    decreases |s|
  {
    if s == [] {
      assert |multiset(t)| == 0;
    } else {
      assert |t| == |multiset(t)| == |multiset(s)| > 0;
      SameHead(s, t);
      assert s == [s[0]] + s[1..];
      assert t == [t[0]] + t[1..];
      assert multiset(s[1..]) == multiset(s) - multiset{s[0]};
      assert multiset(t[1..]) == multiset(t) - multiset{t[0]};
      SortedTail(s);
      SortedTail(t);
      assert UniqueIds(t[1..]) by {
        forall a, b | 0 <= a < b < |t[1..]|
          ensures t[1..][a].id != t[1..][b].id
        {
          assert t[1..][a] == t[a + 1] && t[1..][b] == t[b + 1];
        }
      }
      SortedUnique(s[1..], t[1..]);
    }
  }

  /** Two sorted orderings of the same non-empty rows start with the same row. */
  lemma SameHead(s: seq<Task>, t: seq<Task>)
    requires Sorted(s) && Sorted(t) && UniqueIds(t)
    requires multiset(s) == multiset(t) && s != [] && t != []
    ensures s[0] == t[0]
  {
    assert s[0] in multiset(t);
    var k :| 0 <= k < |t| && t[k] == s[0];
    assert t[0] in multiset(s);
    var m :| 0 <= m < |s| && s[m] == t[0];
    assert NotAfter(t[0], t[k]);
    assert NotAfter(s[0], s[m]);
    assert k == 0;
  }

  /** Appending a row whose id is above every other keeps the primary key a key. */
  lemma AppendFreshId(s: seq<Task>, t: Task)
    requires UniqueIds(s)
    requires forall j :: 0 <= j < |s| ==> s[j].id < t.id
    ensures UniqueIds(s + [t])
  {
    var r := s + [t];
    forall a, b | 0 <= a < b < |r|
      ensures r[a].id != r[b].id
    {
      assert r[a] == s[a];
    }
  }

  /** A permutation has the same ids. */
  lemma PermutationHasId(s: seq<Task>, t: seq<Task>, id: int)
    requires multiset(s) == multiset(t)
    ensures HasId(s, id) <==> HasId(t, id)
  {
    if HasId(s, id) {
      var j :| 0 <= j < |s| && s[j].id == id;
      assert s[j] in multiset(t);
    }
    if HasId(t, id) {
      var j :| 0 <= j < |t| && t[j].id == id;
      assert t[j] in multiset(s);
    }
  }

  /** Index of the first row with the given id, or -1 (JavaScript's `findIndex`). */
  function IndexOfId(s: seq<Task>, id: int): (r: int)
    ensures -1 <= r < |s|
    ensures r == -1 <==> !HasId(s, id)
    ensures r >= 0 ==> s[r].id == id && forall j :: 0 <= j < r ==> s[j].id != id
  {
    if s == [] then -1
    else if s[0].id == id then 0
    else
      var r := IndexOfId(s[1..], id);
      assert HasId(s, id) ==> HasId(s[1..], id) by {
        if HasId(s, id) {
          var j :| 0 <= j < |s| && s[j].id == id;
          assert s[1..][j - 1].id == id;
        }
      }
      if r == -1 then -1 else r + 1
  }

  /** `SELECT * FROM tasks WHERE id = ?`, first row. */
  function Lookup(s: seq<Task>, id: int): (r: Option<Task>)
    ensures r.None? <==> !HasId(s, id)
    ensures r.Some? ==> r.value in s && r.value.id == id
  {
    var i := IndexOfId(s, id);
    if i == -1 then None else Some(s[i])
  }

  /** The row `t` after `UPDATE tasks SET position = m[id]` if its id is a key of `m`. */
  function Moved(t: Task, m: map<int, real>): Task {
    if t.id in m then t.(position := m[t.id]) else t
  }

  /** Every row whose id is a key of `m` gets the position `m` gives it; nothing else changes. */
  function Reposition(s: seq<Task>, m: map<int, real>): seq<Task> {
    seq(|s|, i requires 0 <= i < |s| => Moved(s[i], m))
  }

  lemma RepositionAppend(a: seq<Task>, b: seq<Task>, m: map<int, real>)
    ensures Reposition(a + b, m) == Reposition(a, m) + Reposition(b, m)
  {
    assert forall i :: 0 <= i < |a + b| ==> Reposition(a + b, m)[i] == (Reposition(a, m) + Reposition(b, m))[i];
  }

  /** Writing the same positions into two orderings of the same rows gives two orderings
      of the same updated rows. */
  lemma {:induction false} RepositionPermutation(s: seq<Task>, t: seq<Task>, m: map<int, real>)
    requires multiset(s) == multiset(t)
    ensures multiset(Reposition(s, m)) == multiset(Reposition(t, m))
    decreases |s|
  {
    if s == [] {
      assert |multiset(t)| == 0;
      assert t == [];
    } else {
      assert s[0] in multiset(t);
      var k :| 0 <= k < |t| && t[k] == s[0];
      var t' := t[..k] + t[k + 1..];
      assert t == t[..k] + [s[0]] + t[k + 1..];
      assert s == [s[0]] + s[1..];
      assert multiset(s[1..]) == multiset(s) - multiset{s[0]};
      assert multiset(t') == multiset(t) - multiset{t[k]};
      RepositionPermutation(s[1..], t', m);
      RepositionAppend([s[0]], s[1..], m);
      RepositionAppend(t[..k], t[k + 1..], m);
      RepositionAppend(t[..k] + [s[0]], t[k + 1..], m);
      RepositionAppend(t[..k], [s[0]], m);
    }
  }

  /** Two updates in a row are one update with the later value winning. */
  lemma RepositionTwice(s: seq<Task>, m: map<int, real>, id: int, p: real)
    ensures Reposition(Reposition(s, m), map[id := p]) == Reposition(s, m[id := p])
  {
  }

  /** An update never changes the ids, so it keeps the primary key a key. */
  lemma RepositionKeepsIds(s: seq<Task>, m: map<int, real>)
    ensures |Reposition(s, m)| == |s|
    ensures forall i :: 0 <= i < |s| ==> Reposition(s, m)[i].id == s[i].id
    ensures UniqueIds(s) ==> UniqueIds(Reposition(s, m))
    ensures forall id :: HasId(s, id) <==> HasId(Reposition(s, m), id)
  {
    var r := Reposition(s, m);
    forall id
      ensures HasId(s, id) <==> HasId(r, id)
    {
      if HasId(s, id) {
        var j :| 0 <= j < |s| && s[j].id == id;
        assert r[j].id == id;
      }
      if HasId(r, id) {
        var j :| 0 <= j < |r| && r[j].id == id;
        assert s[j].id == id;
      }
    }
  }

  /** A position write never removes a row, so an id present before is present after. */
  lemma RepositionHasId(s: seq<Task>, m: map<int, real>, id: int)
    requires HasId(s, id)
    ensures HasId(Reposition(s, m), id)
  {
    var j :| 0 <= j < |s| && s[j].id == id;
    assert Reposition(s, m)[j].id == id;
  }
}
