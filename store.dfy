/** The `tasks` table of the embedded database and `TaskDatabase`, the class
    that owns it. The table is kept as its rows in rowid order, together with
    the counter AUTOINCREMENT draws new ids from; `Find` is its view as a map
    from id to row. */
module Store {
  import opened Tasks

  /** One row of the table. `completed` is the INTEGER column, 0 or 1. */
  datatype Row = Row(
    id: int,
    title: string,
    description: string,
    dueDate: string,
    priority: string,
    completed: int,
    category: string)

  /** The row `add_task` and `update_task` write for `t` under `id`
      (`1 if task.completed else 0`). */
  function AsRow(t: Task, id: int): (r: Row)
    ensures r.id == id && (r.completed == 0 || r.completed == 1)
    ensures AsTask(r) == t.(id := Some(id))
  {
    Row(id, t.title, t.description, t.dueDate, t.priority, if t.completed then 1 else 0, t.category)
  }

  /** The `Task` object `get_all_tasks` builds from a row (`bool(completed)`). */
  function AsTask(r: Row): (t: Task)
    ensures t.id == Some(r.id) && (t.completed <==> r.completed != 0)
  {
    Task(Some(r.id), r.title, r.description, r.dueDate, r.priority, r.completed != 0, r.category)
  }

  function AsTasks(rows: seq<Row>): (r: seq<Task>)
    ensures |r| == |rows|
    ensures forall i :: 0 <= i < |rows| ==> r[i].id == Some(rows[i].id) && (r[i].completed <==> rows[i].completed != 0)
  {
    seq(|rows|, i requires 0 <= i < |rows| => AsTask(rows[i]))
  }

  /** What the table guarantees about its rows: ids are positive, below the
      AUTOINCREMENT counter and strictly increasing in row order (so no id
      occurs twice), and the completed column holds 0 or 1. */
  predicate WellFormed(rows: seq<Row>, nextId: int) {
    && 1 <= nextId
    && (forall i :: 0 <= i < |rows| ==> 1 <= rows[i].id < nextId)
    && (forall i :: 0 <= i < |rows| ==> rows[i].completed == 0 || rows[i].completed == 1)
    && (forall i, j :: 0 <= i < j < |rows| ==> rows[i].id < rows[j].id)
  }

  /** The row stored under `id`, if any: the table seen as a map. */
  function Find(rows: seq<Row>, id: int): Option<Row> {
    if rows == [] then None
    else if rows[0].id == id then Some(rows[0])
    else Find(rows[1..], id)
  }

  /** `UPDATE ... WHERE id=?`: every row with that id gets `t`'s six fields. */
  function Replace(rows: seq<Row>, id: int, t: Task): (r: seq<Row>)
    ensures |r| == |rows|
    ensures forall i :: 0 <= i < |rows| ==> r[i].id == rows[i].id
    ensures forall i :: 0 <= i < |rows| && rows[i].id != id ==> r[i] == rows[i]
    ensures forall i :: 0 <= i < |rows| && rows[i].id == id ==> AsTask(r[i]) == t.(id := Some(id))
  {
    seq(|rows|, i requires 0 <= i < |rows| => if rows[i].id == id then AsRow(t, id) else rows[i])
  }

  /** `DELETE ... WHERE id=?`, once for each id in `ids`. */
  function Without(rows: seq<Row>, ids: set<int>): (r: seq<Row>)
    ensures |r| <= |rows|
    ensures forall i :: 0 <= i < |r| ==> r[i] in rows && r[i].id !in ids
  {
    if rows == [] then []
    else (if rows[0].id in ids then [] else [rows[0]]) + Without(rows[1..], ids)
  }

  /** The rows a sequence of inserts appends: `ts[j]` under id `start + j`. */
  function Numbered(ts: seq<Task>, start: int): (r: seq<Row>)
    ensures |r| == |ts|
    ensures forall j :: 0 <= j < |r| ==> r[j].id == start + j
  {
    if ts == [] then []
    else Numbered(ts[..|ts| - 1], start) + [AsRow(ts[|ts| - 1], start + |ts| - 1)]
  }

  /** The table with the completed flag of row `id` inverted. */
  function Flip(rows: seq<Row>, id: int): (r: seq<Row>)
    ensures |r| == |rows|
    ensures forall i :: 0 <= i < |rows| ==> r[i].(completed := rows[i].completed) == rows[i]
    ensures forall i :: 0 <= i < |rows| ==> (r[i].completed != rows[i].completed <==> rows[i].id == id)
  {
    seq(|rows|, i requires 0 <= i < |rows| =>
      if rows[i].id == id then rows[i].(completed := 1 - rows[i].completed) else rows[i])
  }

  /** The table with every row marked completed. */
  function MarkAll(rows: seq<Row>): (r: seq<Row>)
    ensures |r| == |rows|
    ensures forall i :: 0 <= i < |rows| ==> r[i].completed == 1 && r[i].(completed := rows[i].completed) == rows[i]
  {
    seq(|rows|, i requires 0 <= i < |rows| => rows[i].(completed := 1))
  }

  /** No row is marked completed. */
  predicate NoneCompleted(rows: seq<Row>) {
    forall i :: 0 <= i < |rows| ==> rows[i].completed == 0
  }

  /** The rows whose completed column is 0, in table order. */
  function Incomplete(rows: seq<Row>): (r: seq<Row>)
    ensures |r| <= |rows|
    ensures forall i :: 0 <= i < |r| ==> r[i].completed == 0
  {
    if rows == [] then []
    else (if rows[0].completed == 0 then [rows[0]] else []) + Incomplete(rows[1..])
  }

  // ---------------------------------------------------------------------------
  // The table as a map from id to row

  /** `Find` returns a row stored under the id it was asked for, and finds
      nothing only when no row has that id. */
  lemma {:induction false} FindSound(rows: seq<Row>, id: int)
    ensures Find(rows, id).Some? ==> Find(rows, id).value in rows && Find(rows, id).value.id == id
    ensures Find(rows, id).None? <==> forall i :: 0 <= i < |rows| ==> rows[i].id != id
  {
    if rows != [] && rows[0].id != id {
      FindSound(rows[1..], id);
      assert forall i :: 1 <= i < |rows| ==> rows[i] == rows[1..][i - 1];
    }
  }

  /** In a well-formed table every row is what `Find` returns for its id. */
  lemma {:induction false} FindAt(rows: seq<Row>, nextId: int, i: int)
    requires WellFormed(rows, nextId)
    requires 0 <= i < |rows|
    ensures Find(rows, rows[i].id) == Some(rows[i])
  {
    if i > 0 {
      assert WellFormed(rows[1..], nextId);
      FindAt(rows[1..], nextId, i - 1);
    }
  }

  /** Inserting a row under an id no row has adds exactly that entry to the map. */
  lemma {:induction false} FindAfterAppend(rows: seq<Row>, r: Row, k: int)
    requires forall i :: 0 <= i < |rows| ==> rows[i].id != r.id
    ensures Find(rows + [r], k) == if k == r.id then Some(r) else Find(rows, k)
  {
    if rows == [] {
    } else {
      assert (rows + [r])[1..] == rows[1..] + [r];
      FindAfterAppend(rows[1..], r, k);
    }
  }

  /** Updating row `id` changes the map at `id` only, and only if the row
      exists. */
  lemma {:induction false} FindAfterReplace(rows: seq<Row>, id: int, t: Task, k: int)
    ensures Find(Replace(rows, id, t), k) ==
      if k == id && Find(rows, id).Some? then Some(AsRow(t, id)) else Find(rows, k)
  {
    if rows != [] {
      assert Replace(rows, id, t)[1..] == Replace(rows[1..], id, t);
      FindAfterReplace(rows[1..], id, t, k);
    }
  }

  /** An update of an id no row has leaves the table as it was. */
  lemma ReplaceAbsent(rows: seq<Row>, id: int, t: Task)
    requires Find(rows, id).None?
    ensures Replace(rows, id, t) == rows
  {
    FindSound(rows, id);
  }

  /** A deleted id is gone from the map and every other entry stays. */
  lemma {:induction false} FindAfterDelete(rows: seq<Row>, ids: set<int>, k: int)
    ensures Find(Without(rows, ids), k) == if k in ids then None else Find(rows, k)
  {
    if rows != [] {
      var rest := Without(rows[1..], ids);
      FindAfterDelete(rows[1..], ids, k);
      if rows[0].id !in ids {
        var w := [rows[0]] + rest;
        assert Without(rows, ids) == w;
        assert w[1..] == rest;
        assert Find(w, k) == if rows[0].id == k then Some(rows[0]) else Find(rest, k);
      } else {
        assert Without(rows, ids) == rest;
      }
    }
  }

  /** Deleting ids one batch after another is deleting them all at once; in
      particular a second delete of the same id changes nothing. */
  lemma {:induction false} WithoutTwice(rows: seq<Row>, a: set<int>, b: set<int>)
    ensures Without(Without(rows, a), b) == Without(rows, a + b)
  {
    if rows != [] {
      WithoutTwice(rows[1..], a, b);
      if rows[0].id !in a {
        var w := [rows[0]] + Without(rows[1..], a);
        assert Without(rows, a) == w;
        assert w[0] == rows[0] && w[1..] == Without(rows[1..], a);
      } else {
        assert Without(rows, a) == Without(rows[1..], a);
      }
    }
  }

  /** Deleting no id changes nothing. */
  lemma {:induction false} WithoutNothing(rows: seq<Row>)
    ensures Without(rows, {}) == rows
  {
    if rows != [] {
      WithoutNothing(rows[1..]);
    }
  }

  /** An id no row has is deleted without effect. */
  lemma {:induction false} WithoutAbsent(rows: seq<Row>, id: int)
    requires Find(rows, id).None?
    ensures Without(rows, {id}) == rows
  {
    if rows != [] {
      WithoutAbsent(rows[1..], id);
    }
  }

  /** A row remains after deletion exactly when it was stored and its id was
      not deleted. */
  lemma {:induction false} WithoutRows(rows: seq<Row>, ids: set<int>)
    ensures forall r :: r in Without(rows, ids) <==> r in rows && r.id !in ids
  {
    if rows != [] {
      WithoutRows(rows[1..], ids);
      assert rows == [rows[0]] + rows[1..];
    }
  }

  /** Deleting keeps the remaining rows in their order. */
  lemma {:induction false} WithoutIsSubsequence(rows: seq<Row>, ids: set<int>)
    ensures IsSubsequence(Without(rows, ids), rows)
  {
    if rows != [] {
      WithoutIsSubsequence(rows[1..], ids);
      if rows[0].id !in ids {
        var w := [rows[0]] + Without(rows[1..], ids);
        assert Without(rows, ids) == w;
        assert w[0] == rows[0] && w[1..] == Without(rows[1..], ids);
      } else {
        assert Without(rows, ids) == Without(rows[1..], ids);
      }
    }
  }

  /** A row placed before a well-formed table, with a smaller id than all of
      its rows, keeps the table well-formed. */
  lemma ConsWellFormed(r: Row, rest: seq<Row>, nextId: int)
    requires 1 <= r.id < nextId && (r.completed == 0 || r.completed == 1)
    requires WellFormed(rest, nextId)
    requires forall j :: 0 <= j < |rest| ==> r.id < rest[j].id
    ensures WellFormed([r] + rest, nextId)
  {
    var t := [r] + rest;
    assert forall j :: 1 <= j < |t| ==> t[j] == rest[j - 1];
  }

  /** Deleting rows keeps the table well-formed. */
  lemma {:induction false} WithoutWellFormed(rows: seq<Row>, nextId: int, ids: set<int>)
    requires WellFormed(rows, nextId)
    ensures WellFormed(Without(rows, ids), nextId)
  {
    if rows != [] {
      var tail := rows[1..];
      assert forall j :: 0 <= j < |tail| ==> tail[j] == rows[j + 1];
      WithoutWellFormed(tail, nextId, ids);
      var rest := Without(tail, ids);
      if rows[0].id in ids {
        assert Without(rows, ids) == rest;
      } else {
        WithoutRows(tail, ids);
        forall j | 0 <= j < |rest| ensures rows[0].id < rest[j].id {
          assert rest[j] in tail;
        }
        ConsWellFormed(rows[0], rest, nextId);
        assert Without(rows, ids) == [rows[0]] + rest;
      }
    }
  }

  /** Deleting exactly the ids of the completed rows leaves exactly the
      incomplete rows, unchanged and in order. */
  lemma {:induction false} WithoutCompleted(rows: seq<Row>, ids: set<int>)
    requires forall i :: 0 <= i < |rows| ==> (rows[i].id in ids <==> rows[i].completed != 0)
    ensures Without(rows, ids) == Incomplete(rows)
  {
    if rows != [] {
      WithoutCompleted(rows[1..], ids);
    }
  }

  /** Reading a row back as a task and writing that task under the row's id
      gives the row: the 0/1 completed column survives the round trip. */
  lemma AsRowAsTask(r: Row, id: int)
    requires r.completed == 0 || r.completed == 1
    ensures AsRow(AsTask(r), id) == r.(id := id)
  {
  }

  /** `Replace` with the stored task of row `id`, flag inverted, is `Flip`. */
  lemma ReplaceFlipped(rows: seq<Row>, nextId: int, i: int, t: Task, id: int)
    requires WellFormed(rows, nextId)
    requires 0 <= i < |rows| && t == AsTask(rows[i]) && id == rows[i].id
    ensures Replace(rows, id, t.(completed := !t.completed)) == Flip(rows, id)
  {
  }

  /** Toggling the same task twice restores the table. */
  lemma FlipTwice(rows: seq<Row>, id: int)
    ensures Flip(Flip(rows, id), id) == rows
  {
  }

  /** Toggling keeps the table well-formed and changes the completed column
      of row `id` alone. */
  lemma FlipWellFormed(rows: seq<Row>, nextId: int, id: int)
    requires WellFormed(rows, nextId)
    ensures WellFormed(Flip(rows, id), nextId)
    ensures forall k :: Find(Flip(rows, id), k).Some? <==> Find(rows, k).Some?
  {
    assert forall i :: 0 <= i < |rows| ==> Flip(rows, id)[i].id == rows[i].id;
    forall k ensures Find(Flip(rows, id), k).Some? <==> Find(rows, k).Some? {
      FindSound(rows, k);
      FindSound(Flip(rows, id), k);
    }
  }

  /** Clearing keeps exactly the stored rows whose completed column is 0. */
  lemma {:induction false} IncompleteMembers(rows: seq<Row>)
    ensures forall r :: r in Incomplete(rows) <==> r in rows && r.completed == 0
  {
    if rows != [] {
      IncompleteMembers(rows[1..]);
      assert rows == [rows[0]] + rows[1..];
    }
  }

  /** After marking every task completed, clearing the completed tasks
      empties the table. */
  lemma {:induction false} IncompleteOfMarkAll(rows: seq<Row>)
    ensures Incomplete(MarkAll(rows)) == []
  {
    if rows != [] {
      assert MarkAll(rows)[1..] == MarkAll(rows[1..]);
      IncompleteOfMarkAll(rows[1..]);
    }
  }

  /** The table part way through marking everything completed: the rows
      before `i` are marked, the others are as they were. */
  function MarkedBefore(rows: seq<Row>, i: int): seq<Row> {
    seq(|rows|, j requires 0 <= j < |rows| => if j < i then rows[j].(completed := 1) else rows[j])
  }

  /** One more turn of the mark-all loop: updating row `i` with its task
      marked completed marks the rows before `i + 1`, and a row already
      completed needs no update. */
  lemma MarkStep(rows: seq<Row>, nextId: int, i: int)
    requires WellFormed(rows, nextId) && 0 <= i < |rows|
    ensures Replace(MarkedBefore(rows, i), rows[i].id, AsTask(rows[i]).(completed := true)) == MarkedBefore(rows, i + 1)
    ensures rows[i].completed != 0 ==> MarkedBefore(rows, i) == MarkedBefore(rows, i + 1)
  {
  }

  /** Some row before `i + 1` is incomplete exactly when some row before `i`
      is, or row `i` is. */
  lemma IncompleteBeforeStep(rows: seq<Row>, i: int)
    requires 0 <= i < |rows|
    ensures (exists j :: 0 <= j < i + 1 && rows[j].completed == 0)
        <==> (exists j :: 0 <= j < i && rows[j].completed == 0) || rows[i].completed == 0
  {
  }

  /** Marking everything completed a second time changes nothing. */
  lemma MarkAllIdempotent(rows: seq<Row>, nextId: int)
    requires WellFormed(rows, nextId)
    ensures WellFormed(MarkAll(rows), nextId)
    ensures MarkAll(MarkAll(rows)) == MarkAll(rows)
  {
  }

  /** Inserting `a` and then `b` numbers `b` on from `next`, where `a`
      stopped. */
  lemma NumberedAppend(a: seq<Task>, b: seq<Task>, start: int, next: int)
    requires next == start + |a|
    ensures Numbered(a + b, start) == Numbered(a, start) + Numbered(b, next)
  {
    var joined, parts := Numbered(a + b, start), Numbered(a, start) + Numbered(b, next);
    forall j | 0 <= j < |joined| ensures joined[j] == parts[j] {
      NumberedAt(a + b, start, j);
      if j < |a| {
        NumberedAt(a, start, j);
      } else {
        NumberedAt(b, next, j - |a|);
      }
    }
  }

  /** A single insert stores its task under the id it starts from. */
  lemma NumberedOne(t: Task, start: int)
    ensures Numbered([t], start) == [AsRow(t, start)]
  {
    assert [t][..0] == [];
  }

  /** The `j`-th insert stores `ts[j]` under id `start + j`. */
  lemma {:induction false} NumberedAt(ts: seq<Task>, start: int, j: int)
    requires 0 <= j < |ts|
    ensures Numbered(ts, start)[j] == AsRow(ts[j], start + j)
  {
    if j < |ts| - 1 {
      var front := ts[..|ts| - 1];
      NumberedAt(front, start, j);
      assert front[j] == ts[j];
    }
  }

  class TaskDatabase {
    var rows: seq<Row>
    /** The next id AUTOINCREMENT hands out: one more than the largest id
        ever issued, whether or not that row still exists. */
    var nextId: int

    ghost predicate Valid()
      reads this
    {
      WellFormed(rows, nextId)
    }

    /** A freshly created, empty table. */
    constructor ()
      ensures Valid() && rows == [] && nextId == 1
    {
      rows := [];
      nextId := 1;
    }

    /** `INSERT` of `task`'s six fields under a fresh id; returns the id and
        the task carrying it (`task.id = cursor.lastrowid`). */
    method AddTask(task: Task) returns (id: int, saved: Task)
      requires Valid()
      modifies this
      ensures Valid()
      ensures id == old(nextId) && nextId == id + 1
      ensures forall i :: 0 <= i < |old(rows)| ==> old(rows)[i].id < id
      ensures rows == old(rows) + [AsRow(task, id)]
      ensures forall k :: Find(rows, k) == if k == id then Some(AsRow(task, id)) else Find(old(rows), k)
      ensures saved == task.(id := Some(id))
    {
      id := nextId;
      forall k ensures Find(rows + [AsRow(task, id)], k) == if k == id then Some(AsRow(task, id)) else Find(rows, k) {
        FindAfterAppend(rows, AsRow(task, id), k);
      }
      rows := rows + [AsRow(task, id)];
      nextId := nextId + 1;
      saved := task.(id := Some(id));
    }

    /** `UPDATE tasks SET ... WHERE id=?` with `task.id`. A task without an id
        matches no row (`id = NULL` is never true), so nothing changes. */
    method UpdateTask(task: Task)
      requires Valid()
      modifies this
      ensures Valid() && nextId == old(nextId)
      ensures rows == if task.id.Some? then Replace(old(rows), task.id.value, task) else old(rows)
      ensures task.id.Some? ==> forall k ::
        Find(rows, k) == if k == task.id.value && Find(old(rows), k).Some? then Some(AsRow(task, k)) else Find(old(rows), k)
    {
      if task.id.Some? {
        var id := task.id.value;
        forall k ensures Find(Replace(rows, id, task), k) ==
          if k == id && Find(rows, k).Some? then Some(AsRow(task, k)) else Find(rows, k)
        {
          FindAfterReplace(rows, id, task, k);
        }
        rows := Replace(rows, id, task);
      }
    }

    /** `DELETE FROM tasks WHERE id=?`; deleting an absent id is not an error. */
    method DeleteTask(id: int)
      requires Valid()
      modifies this
      ensures Valid() && nextId == old(nextId)
      ensures rows == Without(old(rows), {id})
      ensures forall k :: Find(rows, k) == if k == id then None else Find(old(rows), k)
    {
      WithoutWellFormed(rows, nextId, {id});
      forall k ensures Find(Without(rows, {id}), k) == if k == id then None else Find(rows, k) {
        FindAfterDelete(rows, {id}, k);
      }
      rows := Without(rows, {id});
    }

    /** `SELECT` of every row: one task per row, in row order. */
    method GetAllTasks() returns (tasks: seq<Task>)
      ensures tasks == AsTasks(rows)
    {
      tasks := [];
      var i := 0;
      while i < |rows|
        invariant 0 <= i <= |rows|
        invariant |tasks| == i
        invariant forall j :: 0 <= j < i ==> tasks[j] == AsTask(rows[j])
      {
        var row := rows[i];
        tasks := tasks + [Task(Some(row.id), row.title, row.description, row.dueDate, row.priority,
                               row.completed != 0, row.category)];
        i := i + 1;
      }
    }
  }
}
