/** `MainWindow` without its widgets: the state the window keeps (the store,
    the tasks on display, the filter criteria) and the commands its buttons
    run. What the user answers in a dialog, a confirmation box or a file
    chooser, and which table row is selected, are parameters. */
module App {
  import opened Tasks
  import opened Store
  import opened Filter
  import opened Csv

  /** What the add/edit dialog returns (`get_task_data`). */
  datatype DialogData = DialogData(
    title: string,
    description: string,
    dueDate: string,
    priority: string,
    category: string,
    completed: bool)

  /** How a command ends: it did its work, the user cancelled, no row was
      selected, the title was empty, or there was nothing to clear. */
  datatype Outcome = Applied | Cancelled | NoSelection | EmptyTitle | NothingToClear

  /** The task built from the dialog: `add_task` creates it without an id,
      `edit_task` copies the dialog into the selected task, keeping its id. */
  function FromDialog(d: DialogData, id: Option<int>): (r: Task)
    ensures r.id == id
    ensures DialogData(r.title, r.description, r.dueDate, r.priority, r.category, r.completed) == d
  {
    Task(id, d.title, d.description, d.dueDate, d.priority, d.completed, d.category)
  }

  /** The table shows a task with the selected id. */
  predicate Shown(view: seq<Task>, selected: Option<int>) {
    selected.Some? && exists i :: 0 <= i < |view| && view[i].id == selected
  }

  /** A task on display is the stored row with its id, read back. */
  lemma ShownIsStored(rows: seq<Row>, nextId: int, c: Criteria, t: Task, k: int)
    requires WellFormed(rows, nextId)
    requires t in Refresh(AsTasks(rows), c) && t.id == Some(k)
    ensures exists m :: 0 <= m < |rows| && rows[m].id == k && t == AsTask(rows[m])
  {
    RefreshMembers(AsTasks(rows), c, t);
    var m :| 0 <= m < |AsTasks(rows)| && AsTasks(rows)[m] == t;
    assert t == AsTask(rows[m]);
  }

  /** The ids of `ts`, added one task at a time. */
  ghost function IdsOf(ts: seq<Task>): set<int> {
    if ts == [] then {}
    else IdsOf(ts[..|ts| - 1]) + (if ts[|ts| - 1].id.Some? then {ts[|ts| - 1].id.value} else {})
  }

  lemma {:induction false} IdsOfMembers(ts: seq<Task>, k: int)
    ensures k in IdsOf(ts) <==> exists j :: 0 <= j < |ts| && ts[j].id == Some(k)
  {
    if ts != [] {
      var front := ts[..|ts| - 1];
      IdsOfMembers(front, k);
      assert forall j :: 0 <= j < |front| ==> front[j] == ts[j];
    }
  }

  /** One more turn of the delete loop: deleting the id of `ts[i]` after
      those of `ts[..i]` deletes those of `ts[..i + 1]`. */
  lemma DeleteStep(rows: seq<Row>, ts: seq<Task>, i: int)
    requires 0 <= i < |ts| && ts[i].id.Some?
    ensures Without(Without(rows, IdsOf(ts[..i])), {ts[i].id.value}) == Without(rows, IdsOf(ts[..i + 1]))
  {
    assert ts[..i + 1][..i] == ts[..i];
    WithoutTwice(rows, IdsOf(ts[..i]), {ts[i].id.value});
  }

  /** A completed row's task is among the completed tasks, so its id is
      among the ids deleted. */
  lemma CompletedRowListed(rows: seq<Row>, isCompleted: Task -> bool, m: int)
    requires forall t :: isCompleted(t) == t.completed
    requires 0 <= m < |rows| && rows[m].completed != 0
    ensures rows[m].id in IdsOf(Select(AsTasks(rows), isCompleted))
  {
    var all := AsTasks(rows);
    var sel := Select(all, isCompleted);
    SelectMembers(all, isCompleted);
    assert all[m] in sel;
    var j :| 0 <= j < |sel| && sel[j] == all[m];
    IdsOfMembers(sel, rows[m].id);
  }

  /** Only a completed row has its id among those of the completed tasks,
      because no two rows share an id. */
  lemma ListedRowCompleted(rows: seq<Row>, nextId: int, isCompleted: Task -> bool, m: int)
    requires WellFormed(rows, nextId)
    requires forall t :: isCompleted(t) == t.completed
    requires 0 <= m < |rows| && rows[m].id in IdsOf(Select(AsTasks(rows), isCompleted))
    ensures rows[m].completed != 0
  {
    var all := AsTasks(rows);
    var sel := Select(all, isCompleted);
    IdsOfMembers(sel, rows[m].id);
    var j :| 0 <= j < |sel| && sel[j].id == Some(rows[m].id);
    assert sel[j] in sel;
    assert sel[j] in all && sel[j].completed;
    var n :| 0 <= n < |all| && all[n] == sel[j];
    assert rows[n].id == rows[m].id && rows[n].completed != 0;
    assert n == m;
  }

  /** The completed tasks read from a well-formed table all have ids, and
      those ids are exactly the ids of its completed rows. */
  lemma CompletedTasksOf(rows: seq<Row>, nextId: int, isCompleted: Task -> bool)
    requires WellFormed(rows, nextId)
    requires forall t :: isCompleted(t) == t.completed
    ensures var sel := Select(AsTasks(rows), isCompleted);
      && (forall j :: 0 <= j < |sel| ==> sel[j].id.Some?)
      && (forall m :: 0 <= m < |rows| ==> (rows[m].id in IdsOf(sel) <==> rows[m].completed != 0))
  {
    var all := AsTasks(rows);
    var sel := Select(all, isCompleted);
    forall j | 0 <= j < |sel| ensures sel[j].id.Some? {
      assert sel[j] in sel;
    }
    forall m | 0 <= m < |rows| ensures rows[m].id in IdsOf(sel) <==> rows[m].completed != 0 {
      if rows[m].completed != 0 {
        CompletedRowListed(rows, isCompleted, m);
      }
      if rows[m].id in IdsOf(sel) {
        ListedRowCompleted(rows, nextId, isCompleted, m);
      }
    }
  }

  /** There are no completed tasks exactly when no row is completed. */
  lemma NoCompletedTasks(rows: seq<Row>, isCompleted: Task -> bool)
    requires forall t :: isCompleted(t) == t.completed
    ensures Select(AsTasks(rows), isCompleted) == [] <==> NoneCompleted(rows)
  {
    var all := AsTasks(rows);
    var sel := Select(all, isCompleted);
    if sel != [] {
      assert sel[0] in sel;
      var n :| 0 <= n < |all| && all[n] == sel[0];
      assert rows[n].completed != 0;
    }
    if exists m :: 0 <= m < |rows| && rows[m].completed != 0 {
      var m :| 0 <= m < |rows| && rows[m].completed != 0;
      CompletedRowListed(rows, isCompleted, m);
    }
  }

  /** Exporting a store whose tasks have non-blank titles and no surrounding
      whitespace, then importing the file into a store whose next id is
      `start`, writes the same rows in the same order, renumbered from
      `start`. */
  lemma StoreRoundTrip(rows: seq<Row>, nextId: int, start: int)
    requires WellFormed(rows, nextId)
    requires forall i :: 0 <= i < |rows| ==> Clean(AsTask(rows[i]))
    ensures |Numbered(ParseRows(Body(ExportRows(AsTasks(rows)))), start)| == |rows|
    ensures forall i :: 0 <= i < |rows| ==>
      Numbered(ParseRows(Body(ExportRows(AsTasks(rows)))), start)[i] == rows[i].(id := start + i)
  {
    var ts := AsTasks(rows);
    RoundTrip(ts);
    var back := ParseRows(Body(ExportRows(ts)));
    forall i | 0 <= i < |rows| ensures Numbered(back, start)[i] == rows[i].(id := start + i) {
      NumberedAt(back, start, i);
      AsRowAsTask(rows[i], start + i);
    }
  }

  /** One more turn of the import loop: with `done` the tasks stored for the
      first `i` rows of the file and `next` the id the next insert gets, the
      tasks for the first `i + 1` rows are `done` followed by what `body[i]`
      adds, and their rows follow on from `next`. */
  lemma ImportStep(rows0: seq<Row>, body: seq<seq<string>>, i: int, start: int, done: seq<Task>, next: int)
    requires 0 <= i < |body| && done == ParseRows(body[..i]) && next == start + |done|
    ensures ParseRows(body[..i + 1]) == done + Added(body[i])
    ensures rows0 + Numbered(done + Added(body[i]), start)
         == (rows0 + Numbered(done, start)) + Numbered(Added(body[i]), next)
  {
    ParseRowsStep(body, i);
    NumberedAppend(done, Added(body[i]), start, next);
    ConcatAssoc(rows0, Numbered(done, start), Numbered(Added(body[i]), next));
  }

  class MainWindow {
    const db: TaskDatabase
    /** The tasks on display (`self.tasks`). */
    var tasks: seq<Task>
    /** The search bar and the two drop-downs. */
    var criteria: Criteria

    /** The store is well-formed and the display is the store filtered by the
        current criteria: every command ends with `refresh_tasks` or leaves
        the store untouched. */
    ghost predicate Valid()
      reads this, db
    {
      db.Valid() && tasks == Refresh(AsTasks(db.rows), criteria)
    }

    /** The window opens on `store` with empty search text and the first
        item of each drop-down, which shows every task. */
    constructor (store: TaskDatabase)
      requires store.Valid()
      ensures Valid() && db == store && criteria == NoCriteria
      ensures tasks == AsTasks(store.rows)
    {
      db := store;
      criteria := NoCriteria;
      new;
      var all := store.GetAllTasks();
      tasks := Refresh(all, criteria);
      RefreshIdentity(all);
    }

    /** `refresh_tasks`: reload every task and apply the criteria. */
    method RefreshTasks()
      requires db.Valid()
      modifies this`tasks
      ensures Valid()
      ensures tasks == Refresh(AsTasks(db.rows), criteria)
    {
      var all := db.GetAllTasks();
      tasks := Refresh(all, criteria);
    }

    /** Editing the search text or choosing a drop-down item refreshes the
        display with the new criteria. */
    method ChangeCriteria(c: Criteria)
      requires db.Valid()
      modifies this
      ensures Valid() && criteria == c
      ensures tasks == Refresh(AsTasks(db.rows), c)
    {
      criteria := c;
      RefreshTasks();
    }

    /** `get_selected_task`: the first task on display whose id is the
        selected one. */
    method GetSelectedTask(selected: Option<int>) returns (task: Option<Task>)
      ensures task.None? <==> !Shown(tasks, selected)
      ensures task.Some? ==> exists i :: 0 <= i < |tasks| && tasks[i] == task.value && tasks[i].id == selected
                                        && forall j :: 0 <= j < i ==> tasks[j].id != selected
    {
      if selected.None? {
        return None;
      }
      var i := 0;
      while i < |tasks|
        invariant 0 <= i <= |tasks|
        invariant forall j :: 0 <= j < i ==> tasks[j].id != selected
      {
        if tasks[i].id == selected {
          return Some(tasks[i]);
        }
        i := i + 1;
      }
      return None;
    }

    /** `add_task`: a non-empty title from an accepted dialog is stored as a
        new task; an empty one is refused before the store is touched. */
    method AddTask(accepted: bool, data: DialogData) returns (outcome: Outcome)
      requires Valid()
      modifies this, db
      ensures Valid() && criteria == old(criteria)
      ensures outcome == if !accepted then Cancelled else if data.title == "" then EmptyTitle else Applied
      ensures outcome == Applied ==>
        db.rows == old(db.rows) + [AsRow(FromDialog(data, None), old(db.nextId))] && db.nextId == old(db.nextId) + 1
      ensures outcome != Applied ==> db.rows == old(db.rows) && db.nextId == old(db.nextId)
    {
      if !accepted {
        return Cancelled;
      }
      if data.title == "" {
        return EmptyTitle;
      }
      var newTask := FromDialog(data, None);
      var _, _ := db.AddTask(newTask);
      RefreshTasks();
      outcome := Applied;
    }

    /** `edit_task`: the selected task gets the dialog's fields, unless no
        task is selected, the dialog is cancelled or the title is empty. */
    method EditTask(selected: Option<int>, accepted: bool, data: DialogData) returns (outcome: Outcome)
      requires Valid()
      modifies this, db
      ensures Valid() && criteria == old(criteria) && db.nextId == old(db.nextId)
      ensures outcome == if !Shown(old(tasks), selected) then NoSelection
                         else if !accepted then Cancelled
                         else if data.title == "" then EmptyTitle
                         else Applied
      ensures db.rows == if outcome == Applied then Replace(old(db.rows), selected.value, FromDialog(data, selected))
                         else old(db.rows)
    {
      var task := GetSelectedTask(selected);
      if task.None? {
        return NoSelection;
      }
      if !accepted {
        return Cancelled;
      }
      if data.title == "" {
        return EmptyTitle;
      }
      var edited := FromDialog(data, task.value.id);
      db.UpdateTask(edited);
      RefreshTasks();
      outcome := Applied;
    }

    /** `delete_task`: the selected task is deleted once the user confirms. */
    method DeleteTask(selected: Option<int>, confirmed: bool) returns (outcome: Outcome)
      requires Valid()
      modifies this, db
      ensures Valid() && criteria == old(criteria) && db.nextId == old(db.nextId)
      ensures outcome == if !Shown(old(tasks), selected) then NoSelection
                         else if !confirmed then Cancelled
                         else Applied
      ensures db.rows == if outcome == Applied then Without(old(db.rows), {selected.value}) else old(db.rows)
    {
      var task := GetSelectedTask(selected);
      if task.None? {
        return NoSelection;
      }
      if !confirmed {
        return Cancelled;
      }
      db.DeleteTask(task.value.id.value);
      RefreshTasks();
      outcome := Applied;
    }

    /** `toggle_completed`: the selected task's completed flag is inverted and
        nothing else in the store changes. */
    method ToggleCompleted(selected: Option<int>) returns (outcome: Outcome)
      requires Valid()
      modifies this, db
      ensures Valid() && criteria == old(criteria) && db.nextId == old(db.nextId)
      ensures outcome == if Shown(old(tasks), selected) then Applied else NoSelection
      ensures db.rows == if outcome == Applied then Flip(old(db.rows), selected.value) else old(db.rows)
    {
      var task := GetSelectedTask(selected);
      if task.None? {
        return NoSelection;
      }
      FlipStored(task.value, selected.value);
      RefreshTasks();
      outcome := Applied;
    }

    /** The store side of `toggle_completed`: write back the selected task,
        read from the list on display, with its flag inverted. */
    method FlipStored(t: Task, id: int)
      requires Valid() && t in tasks && t.id == Some(id)
      modifies db
      ensures db.Valid() && db.nextId == old(db.nextId)
      ensures db.rows == Flip(old(db.rows), id)
    {
      ShownIsStored(db.rows, db.nextId, criteria, t, id);
      ghost var m :| 0 <= m < |db.rows| && db.rows[m].id == id && t == AsTask(db.rows[m]);
      var flipped := t.(completed := !t.completed);
      ReplaceFlipped(db.rows, db.nextId, m, t, id);
      db.UpdateTask(flipped);
    }

    /** `clear_completed_tasks`: once confirmed, every completed task is
        deleted, which leaves exactly the incomplete ones, unchanged and in
        order. With no completed task there is nothing to confirm. */
    method ClearCompletedTasks(confirmed: bool) returns (outcome: Outcome)
      requires Valid()
      modifies this, db
      ensures Valid() && criteria == old(criteria) && db.nextId == old(db.nextId)
      ensures outcome == if NoneCompleted(old(db.rows)) then NothingToClear
                         else if !confirmed then Cancelled
                         else Applied
      ensures db.rows == if outcome == Applied then Incomplete(old(db.rows)) else old(db.rows)
    {
      outcome := ClearCompletedRows(confirmed);
      if outcome == Applied {
        RefreshTasks();
      }
    }

    /** The store side of `clear_completed_tasks`: collect the completed
        tasks, stop if there are none or the user declines, otherwise delete
        them one by one, which leaves the incomplete rows. */
    method ClearCompletedRows(confirmed: bool) returns (outcome: Outcome)
      requires db.Valid()
      modifies db
      ensures db.Valid() && db.nextId == old(db.nextId)
      ensures outcome == if NoneCompleted(old(db.rows)) then NothingToClear
                         else if !confirmed then Cancelled
                         else Applied
      ensures db.rows == if outcome == Applied then Incomplete(old(db.rows)) else old(db.rows)
    {
      var all := db.GetAllTasks();
      var isCompleted := (t: Task) => t.completed;
      var completedTasks := Select(all, isCompleted);
      NoCompletedTasks(db.rows, isCompleted);
      if completedTasks == [] {
        return NothingToClear;
      }
      if !confirmed {
        return Cancelled;
      }
      CompletedTasksOf(db.rows, db.nextId, isCompleted);
      ghost var rows0 := db.rows;
      DeleteEach(completedTasks);
      WithoutCompleted(rows0, IdsOf(completedTasks));
      outcome := Applied;
    }

    /** The loop of `clear_completed_tasks`: `delete_task` for each task of
        `ts`, one after another. */
    method DeleteEach(ts: seq<Task>)
      requires db.Valid()
      requires forall j :: 0 <= j < |ts| ==> ts[j].id.Some?
      modifies db
      ensures db.Valid() && db.nextId == old(db.nextId)
      ensures db.rows == Without(old(db.rows), IdsOf(ts))
    {
      ghost var rows0 := db.rows;
      WithoutNothing(rows0);
      var i := 0;
      while i < |ts|
        invariant 0 <= i <= |ts|
        invariant db.Valid() && db.nextId == old(db.nextId)
        invariant db.rows == Without(rows0, IdsOf(ts[..i]))
      {
        DeleteNext(rows0, ts, i);
        i := i + 1;
      }
      assert ts[..i] == ts;
    }

    /** One turn of that loop: deleting `ts[i]` after `ts[..i]`. */
    method DeleteNext(ghost rows0: seq<Row>, ts: seq<Task>, i: int)
      requires db.Valid() && 0 <= i < |ts| && ts[i].id.Some?
      requires db.rows == Without(rows0, IdsOf(ts[..i]))
      modifies db
      ensures db.Valid() && db.nextId == old(db.nextId)
      ensures db.rows == Without(rows0, IdsOf(ts[..i + 1]))
    {
      db.DeleteTask(ts[i].id.value);
      DeleteStep(rows0, ts, i);
    }

    /** `mark_all_completed`: every task ends up completed with its other
        fields unchanged; the result says whether any task was incomplete. */
    method MarkAllCompleted() returns (tasksUpdated: bool)
      requires Valid()
      modifies this, db
      ensures Valid() && criteria == old(criteria) && db.nextId == old(db.nextId)
      ensures db.rows == MarkAll(old(db.rows))
      ensures tasksUpdated <==> exists i :: 0 <= i < |old(db.rows)| && old(db.rows)[i].completed == 0
    {
      var all := db.GetAllTasks();
      tasksUpdated := MarkEach(all);
      RefreshTasks();
    }

    /** The loop of `mark_all_completed` over the stored tasks `ts`: each one
        not yet completed is updated as completed, and `tasksUpdated` records
        that one was. */
    method MarkEach(ts: seq<Task>) returns (tasksUpdated: bool)
      requires db.Valid() && ts == AsTasks(db.rows)
      modifies db
      ensures db.Valid() && db.nextId == old(db.nextId)
      ensures db.rows == MarkAll(old(db.rows))
      ensures tasksUpdated <==> exists i :: 0 <= i < |old(db.rows)| && old(db.rows)[i].completed == 0
    {
      tasksUpdated := false;
      ghost var rows0 := db.rows;
      var i := 0;
      assert MarkedBefore(rows0, 0) == rows0;
      while i < |ts|
        invariant 0 <= i <= |ts| == |rows0|
        invariant db.Valid() && db.nextId == old(db.nextId)
        invariant db.rows == MarkedBefore(rows0, i)
        invariant tasksUpdated <==> exists j :: 0 <= j < i && rows0[j].completed == 0
      {
        var task := ts[i];
        MarkStep(rows0, db.nextId, i);
        IncompleteBeforeStep(rows0, i);
        if !task.completed {
          db.UpdateTask(task.(completed := true));
          tasksUpdated := true;
        }
        i := i + 1;
      }
      assert MarkedBefore(rows0, i) == MarkAll(rows0);
    }

    /** `export_tasks_csv`: the header, then one row per stored task in store
        order (whatever the display filters). */
    method ExportTasksCsv() returns (written: seq<seq<string>>)
      ensures written == ExportRows(AsTasks(db.rows))
    {
      var all := db.GetAllTasks();
      written := [Header];
      var i := 0;
      while i < |all|
        invariant 0 <= i <= |all|
        invariant |written| == i + 1 && written[0] == Header
        invariant forall j :: 0 <= j < i ==> written[j + 1] == ExportRow(all[j])
      {
        written := written + [ExportRow(all[i])];
        i := i + 1;
      }
    }

    /** `import_tasks_csv`: the first row is dropped; every later row with at
        least six fields and a non-blank title is stored as a new task with
        stripped fields, and the count of such rows is returned. */
    method ImportTasksCsv(file: seq<seq<string>>) returns (count: nat)
      requires Valid()
      modifies this, db
      ensures Valid() && criteria == old(criteria)
      ensures count == Accepted(Body(file))
      ensures db.nextId == old(db.nextId) + count
      ensures db.rows == old(db.rows) + Numbered(ParseRows(Body(file)), old(db.nextId))
    {
      var body := if |file| == 0 then [] else file[1..];
      count := ImportRows(body);
      AcceptedCountsAdded(body);
      RefreshTasks();
    }

    /** The loop of `import_tasks_csv`: each row that parses is stored as a new
        task, under the next id; `count` is the number of such rows. */
    method ImportRows(body: seq<seq<string>>) returns (count: nat)
      requires db.Valid()
      modifies db
      ensures db.Valid()
      ensures count == |ParseRows(body)|
      ensures db.nextId == old(db.nextId) + count
      ensures db.rows == old(db.rows) + Numbered(ParseRows(body), old(db.nextId))
    {
      ghost var rows0, start := db.rows, db.nextId;
      ghost var done: seq<Task> := [];
      count := 0;
      var i := 0;
      while i < |body|
        invariant 0 <= i <= |body| && done == ParseRows(body[..i])
        invariant db.Valid() && db.nextId == start + count && count == |done|
        invariant db.rows == rows0 + Numbered(done, start)
      {
        var n := ImportNext(rows0, body, i, start, done);
        done := done + Added(body[i]);
        count := count + n;
        i := i + 1;
      }
      assert body[..|body|] == body;
    }

    /** One turn of that loop: row `body[i]` after `body[..i]`. */
    method ImportNext(ghost rows0: seq<Row>, body: seq<seq<string>>, i: int, ghost start: int, ghost done: seq<Task>)
      returns (n: nat)
      requires db.Valid() && 0 <= i < |body| && done == ParseRows(body[..i])
      requires db.nextId == start + |done| && db.rows == rows0 + Numbered(done, start)
      modifies db
      ensures db.Valid() && n == |Added(body[i])|
      ensures ParseRows(body[..i + 1]) == done + Added(body[i])
      ensures db.nextId == start + |done + Added(body[i])|
      ensures db.rows == rows0 + Numbered(done + Added(body[i]), start)
    {
      ImportStep(rows0, body, i, start, done, db.nextId);
      n := ImportRow(body[i]);
    }

    /** One turn of the loop of `import_tasks_csv`: a row that parses is
        stored as a new task under the next id, and `n` counts it. */
    method ImportRow(row: seq<string>) returns (n: nat)
      requires db.Valid()
      modifies db
      ensures db.Valid()
      ensures n == |Added(row)| && db.nextId == old(db.nextId) + n
      ensures db.rows == old(db.rows) + Numbered(Added(row), old(db.nextId))
    {
      ghost var rows0, next := db.rows, db.nextId;
      var parsed := ParseRow(row);
      if parsed.Some? {
        var _, _ := db.AddTask(parsed.value);
        assert Added(row) == [parsed.value];
        NumberedOne(parsed.value, next);
        n := 1;
      } else {
        assert Added(row) == [];
        assert Numbered([], next) == [];
        assert rows0 + [] == rows0;
        n := 0;
      }
    }
  }
}
